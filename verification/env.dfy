/** The `.env` loader of pkg/utils/env.go: how one line becomes a
    key/value assignment, and how the lines of a file change the process
    environment. The file is given as its lines, as `bufio.Scanner`
    yields them; the environment is a map from names to values. */
module Env {
  import opened Wrappers
  import opened Strings

  /** `strings.SplitN(line, "=", 2)` on a line holding '=': the text before
      the first '=' and the text after it. */
  function Cut(line: string): (r: (string, string))
    requires '=' in line
    ensures r.0 + "=" + r.1 == line
    ensures '=' !in r.0
  {
    if line[0] == '=' then ([], line[1..])
    else
      var rest := Cut(line[1..]);
      assert [line[0]] + rest.0 + "=" + rest.1 == line;
      ([line[0]] + rest.0, rest.1)
  }

  /** The cut is the only way to write a line as a key free of '=', then
      '=', then a value. */
  lemma {:induction false} CutUnique(key: string, value: string)
    requires '=' !in key
    ensures Cut(key + "=" + value) == (key, value)
  {
    var line := key + "=" + value;
    if key != [] {
      assert line[0] == key[0];
      assert line[1..] == key[1..] + "=" + value;
      CutUnique(key[1..], value);
      assert [key[0]] + key[1..] == key;
    }
  }

  /** The parse of one line: `None` for an empty line, a line whose first
      character is '#', or a line without '='. Otherwise the line is cut at
      its first '=' and both halves are trimmed, so the value may itself
      hold '=' and a '#' after leading blanks is part of the key. */
  function ParseEnvLine(line: string): (r: Option<(string, string)>)
    ensures r.None? <==> line == [] || line[0] == '#' || '=' !in line
  {
    if |line| == 0 || line[0] == '#' then None
    else if '=' !in line then None
    else
      var (key, value) := Cut(line);
      Some((TrimSpace(key), TrimSpace(value)))
  }

  /** A parsed pair is the two halves of the cut, trimmed: the key holds no
      '=', and neither half starts or ends with white space. */
  lemma ParseEnvLineTrimmed(line: string)
    requires ParseEnvLine(line).Some?
    ensures var (key, value) := ParseEnvLine(line).value;
            && key == TrimSpace(Cut(line).0) && value == TrimSpace(Cut(line).1)
            && '=' !in key
            && TrimSpace(key) == key && TrimSpace(value) == value
  {
    var (k, v) := Cut(line);
    TrimSpaceIdempotent(k);
    TrimSpaceIdempotent(v);
    var i, j := TrimSpaceSlice(k);
    assert forall c :: c in TrimSpace(k) ==> c in k;
  }

  /** Writing `key=value` with a trimmed key free of '=' (and not starting a
      comment) and a trimmed value parses back to the pair, whatever '='
      the value holds. */
  lemma ParseEnvLineRoundTrip(key: string, value: string)
    requires TrimSpace(key) == key && '=' !in key && (key == [] || key[0] != '#')
    requires TrimSpace(value) == value
    ensures ParseEnvLine(key + "=" + value) == Some((key, value))
  {
    CutUnique(key, value);
    var line := key + "=" + value;
    assert line[|key|] == '=';
    assert line[0] != '#' by {
      if key != [] { assert line[0] == key[0]; }
    }
  }

  lemma ParseEnvLineExamples()
    ensures ParseEnvLine("") == None
    ensures ParseEnvLine("# PORT=1") == None
    ensures ParseEnvLine("PORT") == None
  {
    assert "PORT"[0] != '=' && "PORT"[1] != '=' && "PORT"[2] != '=' && "PORT"[3] != '=';
  }

  /** Only a '#' in the very first column makes a comment: after a blank it
      is part of the key. */
  lemma IndentedHashIsKey()
    ensures ParseEnvLine(" #A=1") == Some(("#A", "1"))
  {
    var line := " #A=1";
    CutUnique(" #A", "1");
    assert " #A" + "=" + "1" == line;
    assert TrimLeft(" #A") == "#A";
    assert TrimRight("#A") == "#A";
  }

  /** `os.Setenv` refuses an empty name, and a NUL byte in the name or the
      value (and '=' in the name, which the cut above already excludes). */
  predicate SetenvAccepts(key: string, value: string) {
    key != "" && '=' !in key && '\0' !in key && '\0' !in value
  }

  /** The error `os.Setenv` returns for a refused pair. */
  const SetenvError: string := "setenv: invalid argument"

  /** The line leaves the environment alone or assigns a pair `os.Setenv` accepts. */
  predicate LineAccepted(line: string) {
    ParseEnvLine(line).None? || SetenvAccepts(ParseEnvLine(line).value.0, ParseEnvLine(line).value.1)
  }

  function Get(env: map<string, string>, key: string): Option<string> {
    if key in env then Some(env[key]) else None
  }

  /** The value of the last line of `lines` that assigns `key`. */
  function LastAssigned(lines: seq<string>, key: string): Option<string>
  {
    if lines == [] then None
    else
      var p := ParseEnvLine(lines[|lines| - 1]);
      if p.Some? && p.value.0 == key then Some(p.value.1)
      else LastAssigned(lines[..|lines| - 1], key)
  }

  /** What `key` holds after `lines` were applied to `env`: the last
      assignment in the file wins, and a name the file never assigns keeps
      its value. */
  function Final(env: map<string, string>, lines: seq<string>, key: string): Option<string> {
    if LastAssigned(lines, key).Some? then LastAssigned(lines, key) else Get(env, key)
  }

  /** `LoadEnv` after the file is open: the lines apply in order; the first
      line whose pair `os.Setenv` refuses stops the load with its error, the
      assignments before it having already been made. */
  method LoadEnv(env: map<string, string>, lines: seq<string>) returns (r: map<string, string>, err: Option<string>)
    ensures err.None? <==> forall i :: 0 <= i < |lines| ==> LineAccepted(lines[i])
    ensures err.None? ==> forall key :: Get(r, key) == Final(env, lines, key)
    ensures err.Some? ==>
              && err == Some(SetenvError)
              && exists n :: 0 <= n < |lines| && !LineAccepted(lines[n]) &&
                             (forall i :: 0 <= i < n ==> LineAccepted(lines[i])) &&
                             forall key :: Get(r, key) == Final(env, lines[..n], key)
  {
    r := env;
    var n := 0;
    while n < |lines|
      invariant 0 <= n <= |lines|
      invariant forall i :: 0 <= i < n ==> LineAccepted(lines[i])
      invariant forall key :: Get(r, key) == Final(env, lines[..n], key)
    {
      var line := lines[n];
      var prefix := lines[..n + 1];
      assert prefix[..n] == lines[..n] && prefix[n] == line;
      var p := ParseEnvLine(line);
      var before := r;
      if p.Some? {
        var (key, value) := p.value;
        if !SetenvAccepts(key, value) {
          return r, Some(SetenvError);
        }
        r := r[key := value];
      }
      forall k ensures Get(r, k) == Final(env, prefix, k) {
        assert Get(before, k) == Final(env, lines[..n], k);
        assert LastAssigned(prefix, k) == if p.Some? && p.value.0 == k then Some(p.value.1) else LastAssigned(lines[..n], k);
      }
      n := n + 1;
    }
    assert lines[..n] == lines;
    return r, None;
  }

  /** Loading a file in two parts is loading the parts one after the other:
      what a later part assigns wins over the earlier part. */
  lemma {:induction false} FinalAppend(env: map<string, string>, a: seq<string>, b: seq<string>, key: string)
    ensures Final(env, a + b, key) ==
              if LastAssigned(b, key).Some? then LastAssigned(b, key) else Final(env, a, key)
    decreases |b|
  {
    if b != [] {
      var ab := a + b;
      assert ab[..|ab| - 1] == a + b[..|b| - 1];
      assert ab[|ab| - 1] == b[|b| - 1];
      FinalAppend(env, a, b[..|b| - 1], key);
    } else {
      assert a + b == a;
    }
  }
}
