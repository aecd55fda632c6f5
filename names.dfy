/** Entry names: ASCII case folding and separator normalisation as `create` applies
    them, and the NUL-separated name block as `read_header` splits it. */
module Names {

  const NUL: char := '\0'

  /** `char::to_ascii_lowercase`: only 'A'..'Z' change. */
  function LowerChar(c: char): (r: char)
  {
    if 'A' <= c <= 'Z' then (c as int + 32) as char else c
  }

  /** `str::to_ascii_lowercase`. */
  function AsciiLower(s: string): (r: string)
    ensures |r| == |s|
    ensures forall i :: 0 <= i < |s| ==> r[i] == LowerChar(s[i])
  {
    seq(|s|, i requires 0 <= i < |s| => LowerChar(s[i]))
  }

  /** Folding twice is folding once. */
  lemma {:induction false} AsciiLowerIdempotent(s: string)
    ensures AsciiLower(AsciiLower(s)) == AsciiLower(s)
  {
  }

  /** `path.to_ascii_lowercase().replace('/', "\\")`, the name `create` stores. */
  function Normalize(path: string): (r: string)
    ensures |r| == |path|
    ensures forall i :: 0 <= i < |path| ==>
      r[i] == if LowerChar(path[i]) == '/' then '\\' else LowerChar(path[i])
  {
    seq(|path|, i requires 0 <= i < |path| =>
      var c := LowerChar(path[i]); if c == '/' then '\\' else c)
  }

  predicate NulFree(s: string) {
    forall i :: 0 <= i < |s| ==> s[i] != NUL
  }

  /** `s.split('\0')`: the segments between NULs; there is always at least one. */
  function Split(s: string): (r: seq<string>)
    ensures |r| >= 1
  {
    if s == [] then [""]
    else
      var rest := Split(s[1..]);
      if s[0] == NUL then [""] + rest else [[s[0]] + rest[0]] + rest[1..]
  }

  /** The segments joined again with a NUL between neighbours. */
  function JoinWith(parts: seq<string>): string
    requires |parts| >= 1
  {
    if |parts| == 1 then parts[0] else parts[0] + [NUL] + JoinWith(parts[1..])
  }

  /** Each name followed by its NUL terminator, as the name block is written. */
  function Terminated(names: seq<string>): string
  {
    if names == [] then "" else names[0] + [NUL] + Terminated(names[1..])
  }

  /** Splitting yields NUL-free segments that join back to the input. */
  lemma {:induction false} SplitJoin(s: string)
    ensures JoinWith(Split(s)) == s
    ensures forall i :: 0 <= i < |Split(s)| ==> NulFree(Split(s)[i])
  {
    if s != [] {
      SplitJoin(s[1..]);
      var rest := Split(s[1..]);
      if s[0] == NUL {
        assert Split(s)[1..] == rest;
        assert s == [NUL] + s[1..];
      } else {
        var r := Split(s);
        assert r[0] == [s[0]] + rest[0];
        assert NulFree(r[0]) by {
          forall i | 0 <= i < |r[0]| ensures r[0][i] != NUL {
            if i > 0 { assert r[0][i] == rest[0][i - 1]; }
          }
        }
        forall i | 1 <= i < |r| ensures NulFree(r[i]) {
          assert r[i] == rest[i];
        }
        if |rest| == 1 {
          assert s == [s[0]] + rest[0];
        } else {
          assert r[1..] == rest[1..];
          assert s == [s[0]] + rest[0] + [NUL] + JoinWith(rest[1..]);
        }
      }
    }
  }

  /** A NUL-free prefix glues onto the first segment. */
  lemma {:induction false} SplitPrefix(p: string, t: string)
    requires NulFree(p)
    ensures Split(p + t) == [p + Split(t)[0]] + Split(t)[1..]
  {
    if p == [] {
      assert p + t == t;
      assert p + Split(t)[0] == Split(t)[0];
      assert [Split(t)[0]] + Split(t)[1..] == Split(t);
    } else {
      assert NulFree(p[1..]) by {
        forall i | 0 <= i < |p| - 1 ensures p[1..][i] != NUL { assert p[1..][i] == p[i + 1]; }
      }
      SplitPrefix(p[1..], t);
      assert (p + t)[1..] == p[1..] + t;
      assert (p + t)[0] == p[0];
      assert [p[0]] + (p[1..] + Split(t)[0]) == p + Split(t)[0];
    }
  }

  /** Conversely, NUL-free segments are recovered from their join. */
  lemma {:induction false} JoinSplit(parts: seq<string>)
    requires |parts| >= 1
    requires forall i :: 0 <= i < |parts| ==> NulFree(parts[i])
    ensures Split(JoinWith(parts)) == parts
  {
    if |parts| == 1 {
      SplitPrefix(parts[0], "");
      assert parts[0] + "" == parts[0];
    } else {
      JoinSplit(parts[1..]);
      var tail := [NUL] + JoinWith(parts[1..]);
      assert JoinWith(parts) == parts[0] + tail;
      SplitPrefix(parts[0], tail);
      assert tail[1..] == JoinWith(parts[1..]);
      assert Split(tail) == [""] + parts[1..];
      assert parts[0] + "" == parts[0];
      assert [parts[0]] + parts[1..] == parts;
    }
  }

  lemma {:induction false} TerminatedIsJoin(names: seq<string>)
    ensures Terminated(names) == JoinWith(names + [""])
  {
    if names != [] {
      TerminatedIsJoin(names[1..]);
      assert (names + [""])[1..] == names[1..] + [""];
    }
  }

  /** Splitting the block of NUL-terminated names gives the names back, plus the
      empty segment after the last terminator. */
  lemma {:induction false} SplitTerminated(names: seq<string>)
    requires forall i :: 0 <= i < |names| ==> NulFree(names[i])
    ensures Split(Terminated(names)) == names + [""]
  {
    TerminatedIsJoin(names);
    JoinSplit(names + [""]);
  }

  lemma {:induction false} TerminatedAppend(names: seq<string>, n: string)
    ensures Terminated(names + [n]) == Terminated(names) + n + [NUL]
  {
    if names == [] {
      assert names + [n] == [n];
    } else {
      assert (names + [n])[1..] == names[1..] + [n];
      TerminatedAppend(names[1..], n);
    }
  }
}
