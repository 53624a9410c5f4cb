// Exactly when the result of the response loop depends on how the stream is cut.
module HttpExact {
  import opened Numbers
  import opened Cutting
  import opened Text
  import opened HttpResponse

  // Bytes come behind the body that Content-Length announces.
  predicate Overlong(s: string) {
    var o := Drain(Feed(INIT, s));
    o.More? && LengthDelimited(o.st) && |o.st.response.body| > o.st.contentLength.value
  }

  ghost predicate SameForAllCuts(s: string) {
    forall p, q | Concat(p) == s && Concat(q) == s && Deliverable(p, BUFFER_SIZE) && Deliverable(q, BUFFER_SIZE) ::
      ResultOf(Receive(INIT, p)) == ResultOf(Receive(INIT, q))
  }

  // ---- when nothing comes behind the body ----

  lemma SameAsWhole(s: string, pieces: seq<string>)
    requires !Overlong(s) && Concat(pieces) == s
    ensures ResultOf(Receive(INIT, pieces)) == ResultOf(Drain(Feed(INIT, s)))
  {
    hide Drain;
    var o := Whole(INIT, pieces);
    if o.More? && LengthDelimited(o.st) {
      InitIsStuck();
      LengthDelimitedFrom(INIT, pieces);
      var r := ResultOf(Receive(INIT, pieces)).value;
      assert r.body == o.st.response.body[..|r.body|] == o.st.response.body;
    } else {
      CutIndependence(pieces);
    }
  }

  lemma InitIsStuck()
    ensures Step(INIT) == Stuck
  {
  }

  // ---- when bytes come behind it ----

  // The loop after the first k bytes of s.
  function After(s: string, k: nat): Outcome
    requires k <= |s|
  {
    Drain(Feed(INIT, s[..k]))
  }

  lemma AfterMore(s: string, k: nat, n: nat)
    requires k <= n <= |s| && After(s, k).More?
    ensures After(s, n) == Drain(Feed(After(s, k).st, s[k..n]))
  {
    hide Drain;
    assert s[..n] == s[..k] + s[k..n];
    FedTwice(INIT, s[..k], s[k..n]);
    DrainFed(Feed(INIT, s[..k]), s[k..n]);
  }

  lemma AfterIsMore(s: string, k: nat)
    requires k <= |s| && Drain(Feed(INIT, s)).More?
    ensures After(s, k).More? && Step(After(s, k).st) == Stuck
    ensures Drain(Feed(INIT, s)) == Drain(Feed(After(s, k).st, s[k..]))
  {
    hide Drain, Step;
    assert s == s[..k] + s[k..];
    FedTwice(INIT, s[..k], s[k..]);
    DrainFed(Feed(INIT, s[..k]), s[k..]);
    DrainedIsStuck(Feed(INIT, s[..k]));
  }

  // With the headers read, nothing can change the way the body is delimited.
  lemma DelimitedAlready(st: State, x: string)
    requires st.parsedHeaders && Step(st) == Stuck
    requires var o := Drain(Feed(st, x)); o.More? && LengthDelimited(o.st)
    ensures LengthDelimited(st) && st.data == ""
    ensures Drain(Feed(st, x)) == More(st.(response := st.response.(body := st.response.body + x)))
  {
    if st.chunked {
      ChunkedStays(Feed(st, x));
      assert false;
    } else {
      PlainStays(Feed(st, x));
      LengthDelimitedBody(st, x);
    }
  }

  lemma PlainStays(st: State)
    requires st.parsedHeaders && !st.chunked
    ensures Drain(st).More? && Drain(st).st.contentLength == st.contentLength
  {
    GoConsumes(st);
    if st.data != "" {
      assert Step(Step(st).st) == Stuck;
    }
  }

  // Without the end of the headers, more than what has arrived is header.
  lemma HeadersGoOn(st: State, x: string)
    requires !st.parsedHeaders && Step(st) == Stuck && st.response.body == ""
    requires var o := Drain(Feed(st, x)); o.More? && LengthDelimited(o.st)
    ensures |Drain(Feed(st, x)).st.response.body| < |x|
  {
    hide Drain, HeaderLine;
    BodyFollowsHeaders(Feed(st, x));
    HeaderMoveParts(Feed(st, x));
    NoLineYet(st.data, x);
  }

  lemma NoLineYet(data: string, x: string)
    requires FindCrlf(data) == |data| && FindCrlf(data + x) < |data + x|
    ensures HeaderLength(data + x) > |data|
  {
    var i := FindCrlf(data + x);
    if i + 2 <= |data| {
      assert data[i..i + 2] == (data + x)[i..i + 2];
      FindSubNotBehind(data, CRLF, i);
    }
  }

  lemma FindSubNotBehind(s: string, p: string, k: nat)
    requires p != "" && Occurs(s, p, k)
    ensures FindSub(s, p) <= k
  {
    if k < FindSub(s, p) {
      FindSubFirst(s, p, k);
    }
  }

  lemma {:induction false} HeadersLeaveBody(st: State)
    requires Drain(st).More? && !Drain(st).st.parsedHeaders
    ensures Drain(st).st.response.body == st.response.body && !st.parsedHeaders
    decreases |st.data|
  {
    GoConsumes(st);
    if st.parsedHeaders {
      StaysParsed(st);
    }
    if Step(st).Go? {
      var i := FindCrlf(st.data);
      HeaderLineParts(st.(data := st.data[i + 2..]), st.data[..i]);
      HeadersLeaveBody(Step(st).st);
    }
  }

  lemma {:induction false} StaysParsed(st: State)
    requires st.parsedHeaders && Drain(st).More?
    ensures Drain(st).st.parsedHeaders
    decreases |st.data|
  {
    GoConsumes(st);
    if Step(st).Go? {
      StepStaysParsed(st);
      hide Step;
      StaysParsed(Step(st).st);
    }
  }

  lemma StepStaysParsed(st: State)
    requires st.parsedHeaders && Step(st).Go?
    ensures Step(st).st.parsedHeaders
  {
    hide Stoul, FindCrlf;
  }

  // Where the body ends that Content-Length announces.
  function EndOfBody(s: string): nat
    requires Overlong(s)
  {
    HeaderLength(s) + Drain(Feed(INIT, s)).st.contentLength.value
  }

  // How far the loop has got after k bytes.
  lemma Reached(s: string, k: nat)
    requires Overlong(s) && k <= |s|
    ensures var o := After(s, k);
            && o.More? && Step(o.st) == Stuck && (GotAll(o.st) <==> k >= EndOfBody(s))
            && (k >= HeaderLength(s) ==> |o.st.response.body| == k - HeaderLength(s))
    ensures HeaderLength(s) <= EndOfBody(s) < |s|
  {
    hide Drain, Step;
    AfterIsMore(s, k);
    assert Feed(INIT, s).data == s;
    BodyFollowsHeaders(Feed(INIT, s));
    var st := After(s, k).st;
    if st.parsedHeaders {
      DelimitedAlready(st, s[k..]);
    } else {
      HeadersLeaveBody(Feed(INIT, s[..k]));
      HeadersGoOn(st, s[k..]);
    }
  }

  // Until everything has arrived, the loop has done what it does on the whole.
  lemma {:induction false} NotYet(st: State, pieces: seq<string>)
    requires Step(st) == Stuck && Whole(st, pieces).More? && !GotAll(Whole(st, pieces).st)
    ensures Receive(st, pieces) == Whole(st, pieces)
    decreases |pieces|
  {
    if pieces == [] {
      FedNothing(st);
    } else {
      WholeAfterFirst(st, pieces);
      var o := Drain(Feed(st, pieces[0]));
      DrainedIsStuck(Feed(st, pieces[0]));
      if LengthDelimited(o.st) {
        LengthDelimitedBody(o.st, Concat(pieces[1..]));
      }
      NotYet(o.st, pieces[1..]);
    }
  }

  lemma {:induction false} ReceiveAppend(st: State, a: seq<string>, b: seq<string>)
    ensures Receive(st, a + b) == if Receive(st, a).More? then Receive(Receive(st, a).st, b) else Receive(st, a)
    decreases |a|
  {
    if a == [] {
      assert a + b == b;
    } else {
      assert (a + b)[1..] == a[1..] + b;
      var o := Settle(Drain(Feed(st, a[0])));
      if o.More? {
        ReceiveAppend(o.st, a[1..], b);
      }
    }
  }

  // When the piece from k to m completes the body, it is taken in full.
  lemma CutResult(s: string, k: nat, m: nat)
    requires Overlong(s) && k < m <= |s|
    requires k < EndOfBody(s) <= m
    ensures Receive(INIT, Cut(s, k, m)).Complete?
    ensures |Receive(INIT, Cut(s, k, m)).st.response.body| == m - HeaderLength(s)
  {
    hide Drain, Step, Overlong, GotAll, EndOfBody, HeaderLength;
    var a, b := Singles(s[..k]), [s[k..m]] + Singles(s[m..]);
    Reached(s, k);
    Reached(s, m);
    InitIsStuck();
    NotYet(INIT, a);
    AfterMore(s, k, m);
    ReceiveAppend(INIT, a, b);
  }

  lemma NothingAtFirst(s: string)
    ensures After(s, 0) == More(INIT) && !GotAll(INIT)
  {
    InitIsStuck();
    assert s[..0] == "";
    FedNothing(INIT);
  }

  // Two cuttings with different results.
  lemma Differ(s: string)
    requires Overlong(s)
    ensures !SameForAllCuts(s)
  {
    hide Drain, HeaderLength, Receive, Cut, EndOfBody;
    Reached(s, 0);
    NothingAtFirst(s);
    var e := EndOfBody(s);
    var p, q := Cut(s, e - 1, e), Cut(s, e - 1, e + 1);
    CutIsCut(s, e - 1, e, BUFFER_SIZE);
    CutIsCut(s, e - 1, e + 1, BUFFER_SIZE);
    CutResult(s, e - 1, e);
    CutResult(s, e - 1, e + 1);
    assert ResultOf(Receive(INIT, p)) != ResultOf(Receive(INIT, q));
  }

  // What send returns or throws is the same for every way of cutting the stream
  // exactly when no bytes come behind a body delimited by Content-Length.
  lemma CutIndependentExactly(s: string)
    ensures SameForAllCuts(s) <==> !Overlong(s)
  {
    hide Drain, Overlong, Receive;
    if Overlong(s) {
      Differ(s);
    } else {
      forall p, q | Concat(p) == s && Concat(q) == s && Deliverable(p, BUFFER_SIZE) && Deliverable(q, BUFFER_SIZE)
        ensures ResultOf(Receive(INIT, p)) == ResultOf(Receive(INIT, q))
      {
        SameAsWhole(s, p);
        SameAsWhole(s, q);
      }
    }
  }
}
