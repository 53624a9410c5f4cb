// Searching in texts.
module Text {

  // The position of the first c in s, or |s|.
  function Find(s: string, c: char): (n: nat)
    ensures n <= |s| && c !in s[..n] && (n < |s| ==> s[n] == c)
  {
    if s == "" || s[0] == c then 0
    else
      var n := 1 + Find(s[1..], c);
      assert s[..n] == [s[0]] + s[1..][..n - 1];
      n
  }

  lemma {:induction false} FindIn(body: string, c: char, tail: string)
    requires c !in body && tail != "" && tail[0] == c
    ensures Find(body + tail, c) == |body|
  {
    if body == "" {
      assert body + tail == tail;
    } else {
      assert (body + tail)[1..] == body[1..] + tail;
      FindIn(body[1..], c, tail);
    }
  }

  // s[..k] holds no c, so the first c of s is not before k.
  lemma {:induction false} FindNotBefore(s: string, c: char, k: nat)
    requires k <= |s| && c !in s[..k]
    ensures Find(s, c) >= k
  {
    if k > 0 {
      assert s[0] in s[..k];
      assert s[1..][..k - 1] == s[..k][1..];
      FindNotBefore(s[1..], c, k - 1);
    }
  }

  function Concat<T>(parts: seq<seq<T>>): seq<T> {
    if parts == [] then [] else parts[0] + Concat(parts[1..])
  }

  const CRLF := "\r\n"

  // The position of the first p in s, or |s|.
  function FindSub(s: string, p: string): (n: nat)
    requires p != ""
    ensures n <= |s| && (n < |s| ==> n + |p| <= |s| && s[n..n + |p|] == p)
  {
    if |s| < |p| then |s|
    else if s[..|p|] == p then 0
    else
      var n := FindSub(s[1..], p);
      assert n < |s| - 1 ==> s[n + 1..n + 1 + |p|] == s[1..][n..n + |p|];
      n + 1
  }

  // More text behind does not move the first p.
  lemma {:induction false} FindSubMore(s: string, p: string, x: string)
    requires p != "" && FindSub(s, p) < |s|
    ensures FindSub(s + x, p) == FindSub(s, p)
  {
    assert (s + x)[..|p|] == s[..|p|];
    if s[..|p|] != p {
      assert (s + x)[1..] == s[1..] + x;
      FindSubMore(s[1..], p, x);
    }
  }

  // p stands at k in s.
  predicate Occurs(s: string, p: string, k: nat) {
    k + |p| <= |s| && s[k..k + |p|] == p
  }

  // No p stands before the place that FindSub gives.
  lemma {:induction false} FindSubFirst(s: string, p: string, k: nat)
    requires p != "" && k < FindSub(s, p)
    ensures !Occurs(s, p, k)
  {
    if 0 < k && |p| <= |s| - k {
      FindSubFirst(s[1..], p, k - 1);
      assert s[1..][k - 1..k - 1 + |p|] == s[k..k + |p|];
    }
  }

  lemma {:induction false} FindSubDrop(s: string, p: string, k: nat)
    requires p != "" && k <= FindSub(s, p)
    ensures FindSub(s[k..], p) == FindSub(s, p) - k
  {
    if k > 0 && |s| >= |p| {
      FindSubDrop(s[1..], p, k - 1);
      assert s[1..][k - 1..] == s[k..];
    }
  }

  // A place with these properties is the one that FindSub gives.
  lemma FindSubIs(s: string, p: string, n: nat)
    requires p != "" && n <= |s|
    requires n < |s| ==> Occurs(s, p, n)
    requires forall k: nat | k < n :: !Occurs(s, p, k)
    ensures FindSub(s, p) == n
  {
    if n < FindSub(s, p) {
      FindSubFirst(s, p, n);
    } else if FindSub(s, p) < n {
      assert Occurs(s, p, FindSub(s, p));
    }
  }

  // Text without the first character of p does not hold the start of p.
  lemma {:induction false} FindSubAfter(text: string, p: string, rest: string)
    requires p != "" && p[0] !in text
    ensures FindSub(text + p + rest, p) == |text|
  {
    var s := text + p + rest;
    if text == "" {
      assert s[..|p|] == p;
    } else {
      assert s[0] == text[0] && s[..|p|][0] == s[0];
      assert s[1..] == text[1..] + p + rest;
      FindSubAfter(text[1..], p, rest);
    }
  }

  // Spaces and tabs removed at the start, and at the end.
  function LTrim(s: string): string {
    if s != "" && (s[0] == ' ' || s[0] == '\t') then LTrim(s[1..]) else s
  }

  function RTrim(s: string): string {
    if s != "" && (s[|s| - 1] == ' ' || s[|s| - 1] == '\t') then RTrim(s[..|s| - 1]) else s
  }

  predicate Blanks(ws: string) { forall i | 0 <= i < |ws| :: ws[i] == ' ' || ws[i] == '\t' }

  lemma {:induction false} LeftBlanks(ws: string, t: string)
    requires Blanks(ws) && (t != "" ==> !Blanks(t[..1]))
    ensures LTrim(ws + t) == t
  {
    if ws == "" {
      assert ws + t == t;
      assert t != "" ==> t[..1] == [t[0]];
    } else {
      assert (ws + t)[1..] == ws[1..] + t;
      LeftBlanks(ws[1..], t);
    }
  }

  lemma {:induction false} RightBlanks(t: string, ws: string)
    requires Blanks(ws) && (t != "" ==> !Blanks(t[|t| - 1..]))
    ensures RTrim(t + ws) == t
  {
    if ws == "" {
      assert t + ws == t;
      assert t != "" ==> t[|t| - 1..] == [t[|t| - 1]];
    } else {
      assert (t + ws)[..|t + ws| - 1] == t + ws[..|ws| - 1];
      RightBlanks(t, ws[..|ws| - 1]);
    }
  }
}
