// A stream as the pieces that arrive one after the other.
module Cutting {
  import opened Text

  // Pieces that are not empty and not longer than the buffer they are received in.
  predicate Deliverable(pieces: seq<string>, limit: nat) {
    forall i | 0 <= i < |pieces| :: 0 < |pieces[i]| <= limit
  }

  // The size of the buffers that the client and the server receive into.
  const BUFFER_SIZE := 4096

  function Singles(s: string): (pieces: seq<string>)
    ensures Concat(pieces) == s && Deliverable(pieces, 1)
  {
    if s == "" then []
    else
      var rest := Singles(s[1..]);
      assert ([s[..1]] + rest)[1..] == rest;
      [s[..1]] + rest
  }

  lemma {:induction false} ConcatAppend(a: seq<string>, b: seq<string>)
    ensures Concat(a + b) == Concat(a) + Concat(b)
  {
    if a == [] {
      assert a + b == b;
    } else {
      assert (a + b)[1..] == a[1..] + b;
      ConcatAppend(a[1..], b);
    }
  }

  // Byte by byte, but for the bytes k to m.
  function Cut(s: string, k: nat, m: nat): seq<string>
    requires k <= m <= |s|
  {
    Singles(s[..k]) + ([s[k..m]] + Singles(s[m..]))
  }

  lemma CutIsCut(s: string, k: nat, m: nat, limit: nat)
    requires k < m <= |s| && m - k <= limit
    ensures Concat(Cut(s, k, m)) == s && Deliverable(Cut(s, k, m), limit)
  {
    hide Singles;
    var tail := [s[k..m]] + Singles(s[m..]);
    ConcatAppend(Singles(s[..k]), tail);
    assert tail[1..] == Singles(s[m..]);
    assert s == s[..k] + (s[k..m] + s[m..]);
  }
}
