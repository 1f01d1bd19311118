/** `upsert_env` of the ngrok helper script with the file access taken out: the
    file's lines come in (or nothing, when the file does not exist) and the lines
    to write back come out. */
module Ngrok2Env {

  datatype Option<T> = None | Some(value: T)

  /** `re.match(f"^{re.escape(name)}=", line)`: the line starts with the
      literal variable name followed immediately by '='. */
  predicate Matches(name: string, line: string) {
    |name| < |line| && line[..|name|] == name && line[|name|] == '='
  }

  /** Line `i` is the first line of `lines` that assigns `name`. */
  predicate FirstMatch(name: string, lines: seq<string>, i: int) {
    && 0 <= i < |lines|
    && Matches(name, lines[i])
    && forall k :: 0 <= k < i ==> !Matches(name, lines[k])
  }

  /** No line of `lines` assigns `name`. */
  predicate NoMatch(name: string, lines: seq<string>) {
    forall k :: 0 <= k < |lines| ==> !Matches(name, lines[k])
  }

  /** The line that is written for the variable. */
  function Entry(name: string, url: string): string {
    name + "=" + url + "\n"
  }

  /** Replaces the first line that assigns `name` with the new entry, or
      appends the entry when no line does; a missing file becomes the entry
      alone. */
  method UpsertEnv(name: string, url: string, existing: Option<seq<string>>) returns (lines: seq<string>)
    ensures existing.None? ==> lines == [Entry(name, url)]
    ensures existing.Some? && NoMatch(name, existing.value) ==> lines == existing.value + [Entry(name, url)]
    ensures existing.Some? ==> forall i :: FirstMatch(name, existing.value, i) ==>
      lines == existing.value[i := Entry(name, url)]
  {
    var entry := Entry(name, url);
    if existing.None? {
      lines := [entry];
      return;
    }
    lines := existing.value;
    var replaced := false;
    var i := 0;
    while i < |lines|
      invariant 0 <= i <= |lines|
      invariant lines == existing.value
      invariant forall k :: 0 <= k < i ==> !Matches(name, lines[k])
    {
      if Matches(name, lines[i]) {
        lines := lines[i := entry];
        replaced := true;
        break;
      }
      i := i + 1;
    }
    if !replaced {
      lines := lines + [entry];
    }
  }

  /** The two cases of UpsertEnv's contract cover every existing file: either
      no line assigns the variable, or there is a first line that does. */
  lemma {:induction false} MatchCases(name: string, lines: seq<string>)
    ensures NoMatch(name, lines) <==> !exists i :: FirstMatch(name, lines, i)
  {
    if lines != [] && !NoMatch(name, lines) {
      if Matches(name, lines[0]) {
        assert FirstMatch(name, lines, 0);
      } else {
        MatchCases(name, lines[1..]);
        assert !NoMatch(name, lines[1..]) by {
          var k :| 0 <= k < |lines| && Matches(name, lines[k]);
          assert lines[1..][k - 1] == lines[k];
        }
        var i :| FirstMatch(name, lines[1..], i);
        assert FirstMatch(name, lines, i + 1) by {
          forall k | 0 <= k < i + 1
            ensures !Matches(name, lines[k])
          {
            if k > 0 { assert lines[k] == lines[1..][k - 1]; }
          }
        }
      }
    }
  }

  /** Only the first assigning line is replaced: every other line, later
      assignments of the same variable included, is kept, and the number of
      lines does not change. */
  lemma UpsertKeepsOtherLines(name: string, url: string, existing: seq<string>, i: int, lines: seq<string>)
    requires FirstMatch(name, existing, i)
    requires lines == existing[i := Entry(name, url)]
    ensures |lines| == |existing|
    ensures lines[i] == Entry(name, url) && Matches(name, lines[i])
    ensures forall k :: 0 <= k < |existing| && k != i ==> lines[k] == existing[k]
  {
    assert (name + "=" + url + "\n")[..|name|] == name;
  }

  /** The match is on the literal name followed by '=': a longer name with the
      same prefix, or a space before '=', does not match. */
  lemma MatchIsLiteral()
    ensures !Matches("FOO", "FOOBAR=1\n")
    ensures !Matches("FOO", "FOO =1\n")
    ensures Matches("FOO", "FOO=1\n")
  {
    assert "FOOBAR=1\n"[3] == 'B';
    assert "FOO =1\n"[3] == ' ';
    assert "FOO=1\n"[..3] == "FOO";
  }
}
