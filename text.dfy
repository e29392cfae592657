/** The JavaScript string operations the updater relies on: `trim()`,
    `split(/\s+/)` and `split(',')`, over Unicode strings. */
module Text {

  /** The characters JavaScript's `\s` matches and `trim()` removes
      (white space and line terminators). */
  predicate IsSpace(c: char)
  {
    c == ' ' || c == '\t' || c == '\n' || c == '\r' || c == '\U{000B}' || c == '\U{000C}'
    || c == '\U{00A0}' || c == '\U{1680}' || ('\U{2000}' <= c <= '\U{200A}')
    || c == '\U{2028}' || c == '\U{2029}' || c == '\U{202F}' || c == '\U{205F}'
    || c == '\U{3000}' || c == '\U{FEFF}'
  }

  predicate NoSpace(s: string)
  {
    forall i :: 0 <= i < |s| ==> !IsSpace(s[i])
  }

  predicate AllSpace(s: string)
  {
    forall i :: 0 <= i < |s| ==> IsSpace(s[i])
  }

  /** `s` with its leading white space removed. */
  function TrimStart(s: string): (r: string)
    ensures |r| <= |s|
    ensures r == [] || !IsSpace(r[0])
  {
    if s != [] && IsSpace(s[0]) then TrimStart(s[1..]) else s
  }

  /** `s` with its trailing white space removed. */
  function TrimEnd(s: string): (r: string)
    ensures |r| <= |s|
    ensures r == [] || !IsSpace(r[|r| - 1])
  {
    if s != [] && IsSpace(s[|s| - 1]) then TrimEnd(s[..|s| - 1]) else s
  }

  /** What TrimStart removes is a prefix of white space. */
  lemma {:induction false} TrimStartSuffix(s: string)
    ensures TrimStart(s) == s[|s| - |TrimStart(s)|..]
    ensures AllSpace(s[..|s| - |TrimStart(s)|])
  {
    if s != [] && IsSpace(s[0]) {
      TrimStartSuffix(s[1..]);
    }
  }

  /** What TrimEnd removes is a suffix of white space. */
  lemma {:induction false} TrimEndPrefix(s: string)
    ensures TrimEnd(s) == s[..|TrimEnd(s)|]
    ensures AllSpace(s[|TrimEnd(s)|..])
  {
    if s != [] && IsSpace(s[|s| - 1]) {
      TrimEndPrefix(s[..|s| - 1]);
    }
  }

  /** JavaScript's `s.trim()`; it neither starts nor ends with white space. */
  function Trim(s: string): (r: string)
    ensures r == [] || (!IsSpace(r[0]) && !IsSpace(r[|r| - 1]))
  {
    TrimEndPrefix(TrimStart(s));
    TrimEnd(TrimStart(s))
  }

  /** What `trim()` removes is white space at both ends and nothing else:
      the result is an infix of `s` with only white space around it. */
  lemma TrimIsInfix(s: string)
    ensures exists i :: 0 <= i <= |s| - |Trim(s)| && Trim(s) == s[i..i + |Trim(s)|]
                        && AllSpace(s[..i]) && AllSpace(s[i + |Trim(s)|..])
  {
    var t := TrimStart(s);
    var r := TrimEnd(t);
    var i := |s| - |t|;
    TrimStartSuffix(s);
    TrimEndPrefix(t);
    assert r == s[i..i + |r|];
    assert s[i + |r|..] == t[|r|..];
  }

  /** JavaScript's `s.split(/\s+/)`: the pieces between maximal runs of white
      space, in order; white space at either end yields an empty first or last
      piece, and the empty string yields one empty piece. */
  function SplitWs(s: string): (r: seq<string>)
    ensures |r| >= 1
    ensures forall k :: 0 <= k < |r| ==> NoSpace(r[k])
    decreases |s|
  {
    if s == [] then [[]]
    else if IsSpace(s[0]) then [[]] + SplitWs(TrimStart(s))
    else
      var rest := SplitWs(s[1..]);
      [[s[0]] + rest[0]] + rest[1..]
  }

  /** JavaScript's `s.split(sep)` for a one-character separator: the pieces
      between the separators, in order, empty pieces included; never empty. */
  function Split(s: string, sep: char): (r: seq<string>)
    ensures |r| >= 1
  {
    if s == [] then [[]]
    else if s[0] == sep then [[]] + Split(s[1..], sep)
    else
      var rest := Split(s[1..], sep);
      [[s[0]] + rest[0]] + rest[1..]
  }

  /** No piece of a split contains the separator. */
  lemma {:induction false} SplitPieces(s: string, sep: char)
    ensures forall k :: 0 <= k < |Split(s, sep)| ==> sep !in Split(s, sep)[k]
  {
    if s != [] {
      SplitPieces(s[1..], sep);
      var rest := Split(s[1..], sep);
      if s[0] != sep {
        assert forall k :: 1 <= k < |Split(s, sep)| ==> Split(s, sep)[k] == rest[k];
      }
    }
  }

  /** The pieces joined with one separator between neighbours. */
  function Join(ps: seq<string>, sep: char): string
    requires |ps| >= 1
  {
    if |ps| == 1 then ps[0] else ps[0] + [sep] + Join(ps[1..], sep)
  }

  /** Splitting, then joining with the same separator, gives the string back. */
  lemma {:induction false} JoinOfSplit(s: string, sep: char)
    ensures Join(Split(s, sep), sep) == s
  {
    if s == [] {
    } else if s[0] == sep {
      JoinOfSplit(s[1..], sep);
      assert Split(s, sep)[1..] == Split(s[1..], sep);
    } else {
      JoinOfSplit(s[1..], sep);
      var rest := Split(s[1..], sep);
      var r := [[s[0]] + rest[0]] + rest[1..];
      assert r[1..] == rest[1..];
      if |rest| > 1 {
        assert rest[1..] == Split(s[1..], sep)[1..];
      }
    }
  }

  /** Splitting a separator-free word followed by a separator or nothing. */
  lemma {:induction false} SplitWord(t: string, u: string, sep: char)
    requires sep !in t
    requires u == [] || u[0] == sep
    ensures Split(t + u, sep) == [t + Split(u, sep)[0]] + Split(u, sep)[1..]
  {
    if t == [] {
      assert t + u == u;
    } else {
      SplitWord(t[1..], u, sep);
      assert (t + u)[1..] == t[1..] + u;
      assert [t[0]] + (t[1..] + Split(u, sep)[0]) == t + Split(u, sep)[0];
    }
  }

  /** Joining separator-free pieces, then splitting, gives the pieces back. */
  lemma {:induction false} SplitOfJoin(ps: seq<string>, sep: char)
    requires |ps| >= 1
    requires forall k :: 0 <= k < |ps| ==> sep !in ps[k]
    ensures Split(Join(ps, sep), sep) == ps
  {
    if |ps| == 1 {
      SplitWord(ps[0], [], sep);
      assert ps[0] + [] == ps[0];
    } else {
      var tail := Join(ps[1..], sep);
      SplitOfJoin(ps[1..], sep);
      assert ([sep] + tail)[1..] == tail;
      assert Split([sep] + tail, sep) == [[]] + ps[1..];
      assert Join(ps, sep) == ps[0] + ([sep] + tail);
      SplitWord(ps[0], [sep] + tail, sep);
      assert ps[0] + [] == ps[0];
    }
  }

  /** Splitting a space-free word followed by white space or nothing. */
  lemma {:induction false} SplitWsWord(t: string, u: string)
    requires NoSpace(t)
    requires u == [] || IsSpace(u[0])
    ensures SplitWs(t + u) == [t + SplitWs(u)[0]] + SplitWs(u)[1..]
  {
    if t == [] {
      assert t + u == u;
    } else {
      SplitWsWord(t[1..], u);
      assert (t + u)[0] == t[0];
      assert (t + u)[1..] == t[1..] + u;
      assert [t[0]] + (t[1..] + SplitWs(u)[0]) == t + SplitWs(u)[0];
    }
  }

  /** The fields `ts` with the runs of white space `ws` between neighbours:
      `ts[0] + ws[0] + ts[1] + ... + ws[n - 1] + ts[n]`. */
  function Interleave(ts: seq<string>, ws: seq<string>): string
    requires |ts| == |ws| + 1
  {
    if ws == [] then ts[0] else ts[0] + ws[0] + Interleave(ts[1..], ws[1..])
  }

  /** An interleaving starts with the first field and ends with the last. */
  lemma {:induction false} InterleaveEnds(ts: seq<string>, ws: seq<string>)
    requires |ts| == |ws| + 1
    ensures |Interleave(ts, ws)| >= |ts[0]| && Interleave(ts, ws)[..|ts[0]|] == ts[0]
    ensures |Interleave(ts, ws)| >= |ts[|ts| - 1]|
    ensures Interleave(ts, ws)[|Interleave(ts, ws)| - |ts[|ts| - 1]|..] == ts[|ts| - 1]
  {
    if ws != [] {
      InterleaveEnds(ts[1..], ws[1..]);
      var j := Interleave(ts, ws);
      var tail := Interleave(ts[1..], ws[1..]);
      assert j == ts[0] + ws[0] + tail;
      assert j[|j| - |tail|..] == tail;
      assert ts[1..][|ts[1..]| - 1] == ts[|ts| - 1];
    }
  }

  /** Nonempty space-free fields separated by nonempty runs of white space
      split back into the same fields, whatever the runs are made of. */
  lemma {:induction false} SplitWsOfRuns(ts: seq<string>, ws: seq<string>)
    requires |ts| == |ws| + 1
    requires forall k :: 0 <= k < |ts| ==> ts[k] != [] && NoSpace(ts[k])
    requires forall k :: 0 <= k < |ws| ==> ws[k] != [] && AllSpace(ws[k])
    ensures SplitWs(Interleave(ts, ws)) == ts
  {
    if ws == [] {
      SplitWsWord(ts[0], []);
      assert ts[0] + [] == ts[0];
    } else {
      var tail := Interleave(ts[1..], ws[1..]);
      SplitWsOfRuns(ts[1..], ws[1..]);
      InterleaveEnds(ts[1..], ws[1..]);
      assert tail[0] == ts[1][0];
      var u := ws[0] + tail;
      assert u[0] == ws[0][0];
      TrimStartPadded(ws[0], tail);
      assert SplitWs(u) == [[]] + ts[1..];
      assert Interleave(ts, ws) == ts[0] + u;
      SplitWsWord(ts[0], u);
      assert ts[0] + [] == ts[0];
    }
  }

  /** Trimming the start of a string of white space leaves nothing. */
  lemma {:induction false} TrimStartAllSpace(s: string)
    requires AllSpace(s)
    ensures TrimStart(s) == []
  {
    if s != [] {
      TrimStartAllSpace(s[1..]);
    }
  }

  /** Leading white space before a core that does not start with any is dropped. */
  lemma {:induction false} TrimStartPadded(pre: string, x: string)
    requires AllSpace(pre)
    requires x == [] || !IsSpace(x[0])
    ensures TrimStart(pre + x) == x
  {
    if pre != [] {
      assert (pre + x)[1..] == pre[1..] + x;
      TrimStartPadded(pre[1..], x);
    } else {
      assert pre + x == x;
    }
  }

  /** Trailing white space after a core that does not end with any is dropped. */
  lemma {:induction false} TrimEndPadded(x: string, post: string)
    requires AllSpace(post)
    requires x == [] || !IsSpace(x[|x| - 1])
    ensures TrimEnd(x + post) == x
  {
    if post != [] {
      assert (x + post)[..|x + post| - 1] == x + post[..|post| - 1];
      TrimEndPadded(x, post[..|post| - 1]);
    } else {
      assert x + post == x;
    }
  }

  /** Trimming removes exactly the white space around a core that has none
      at its ends. */
  lemma TrimPadded(pre: string, s: string, post: string)
    requires AllSpace(pre) && AllSpace(post)
    requires s == [] || (!IsSpace(s[0]) && !IsSpace(s[|s| - 1]))
    ensures Trim(pre + s + post) == s
  {
    assert pre + s + post == pre + (s + post);
    if s == [] {
      assert pre + (s + post) == pre + post;
      TrimStartAllSpace(pre + post);
    } else {
      TrimStartPadded(pre, s + post);
      TrimEndPadded(s, post);
    }
  }
}
