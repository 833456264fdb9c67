/** What a session does, stated against the plan of a complete upload:
    it sends a prefix of the plan, stops at the first rejected reply,
    finishes exactly when every reply accepts and the button was never
    pressed, and after an abort sends neither M29 nor M23. */
module SessionProofs {
  import opened Wrappers
  import opened Binary
  import opened Text
  import opened Protocol
  import opened Session

  /** The first `upto` steps of `sent` were accepted by their replies,
      the first of them answered by reply `first`. */
  predicate AcceptedUpTo(sent: seq<Step>, judge: Judge, first: nat, upto: int)
  {
    forall j | 0 <= j < upto && j < |sent| :: judge(first + j, sent[j]).None?
  }

  /** The slice read at loop head `c`, and how it relates to the parts. */
  lemma SliceAt(payload: Bytes, c: nat)
    requires ChunkSize * c <= |payload|
    ensures |Slice(payload, c)| == Min(ChunkSize, |payload| - ChunkSize * c)
    ensures c < |Parts(payload)| <==> ChunkSize * c < |payload|
    ensures c < |Parts(payload)| ==> Parts(payload)[c] == Part(c, Slice(payload, c))
    ensures |Slice(payload, c)| < ChunkSize ==> c == |payload| / ChunkSize
    ensures |Slice(payload, c)| == 0 ==> |Parts(payload)| == c
    ensures 0 < |Slice(payload, c)| < ChunkSize ==> |Parts(payload)| == c + 1
  {
    ChunkLayout(payload);
  }

  /** The chunk loop from head `c` on sends parts `c`, `c + 1`, ... of the
      plan, in order. */
  lemma {:induction false} UploadSends(payload: Bytes, judge: Judge, aborts: seq<bool>, c: nat)
    requires ChunkSize * c <= |payload|
    ensures var u := Upload(payload, judge, aborts, c);
      && c + |u.sent| <= |Parts(payload)|
      && u.sent == Parts(payload)[c..c + |u.sent|]
    decreases |payload| - ChunkSize * c
  {
    SliceAt(payload, c);
    var data := Slice(payload, c);
    var parts := Parts(payload);
    var u := Upload(payload, judge, aborts, c);
    if AbortSeen(aborts, c) || |data| == 0 {
      assert u.sent == [];
    } else if !judge(OpeningLength + c, Part(c, data)).None? || |data| < ChunkSize {
      assert u.sent == [Part(c, data)];
      assert c < |parts| && parts[c] == Part(c, data);
      assert parts[c..c + 1] == [Part(c, data)];
    } else {
      UploadSends(payload, judge, aborts, c + 1);
      var rest := Upload(payload, judge, aborts, c + 1);
      assert c < |parts| && parts[c] == Part(c, data);
      assert u.sent == [parts[c]] + rest.sent;
      ConsSlice(parts, c, |rest.sent|);
    }
  }

  /** An element followed by the slice after it is the slice from it. */
  lemma ConsSlice(s: seq<Step>, a: nat, k: nat)
    requires a + 1 + k <= |s|
    ensures [s[a]] + s[a + 1..a + 1 + k] == s[a..a + 1 + k]
  {
  }

  /** How a chunk loop run `u` from head `c` on relates its flag reads to
      the parts it sent: each part follows a read that found the flag
      clear; the loop ends at the first read that finds it set, at a
      rejected part, or after the last part; it reads the flag at most
      once per part plus once more. */
  predicate StopsRightly(u: Uploaded, payload: Bytes, aborts: seq<bool>, c: nat)
  {
    && c < u.flagReads <= |payload| / ChunkSize + 1
    && (|u.sent| >= 1 ==> !AbortSeen(aborts, c + |u.sent| - 1))
    && (u.failure.Some? ==> |u.sent| >= 1 && c + |u.sent| == u.flagReads)
    && (u.failure.None? ==>
          if AbortSeen(aborts, u.flagReads - 1) then c + |u.sent| == u.flagReads - 1
          else u.flagReads == |payload| / ChunkSize + 1 && c + |u.sent| == |Parts(payload)|)
  }

  /** The chunk loop from head `c` on stops as `StopsRightly` says. */
  lemma {:induction false} UploadStops(payload: Bytes, judge: Judge, aborts: seq<bool>, c: nat)
    requires ChunkSize * c <= |payload|
    ensures StopsRightly(Upload(payload, judge, aborts, c), payload, aborts, c)
    decreases |payload| - ChunkSize * c
  {
    SliceAt(payload, c);
    var data := Slice(payload, c);
    var u := Upload(payload, judge, aborts, c);
    if AbortSeen(aborts, c) || |data| == 0 {
      assert u == Uploaded([], None, c + 1);
    } else if !judge(OpeningLength + c, Part(c, data)).None? {
      assert |u.sent| == 1 && u.failure.Some? && u.flagReads == c + 1;
    } else if |data| < ChunkSize {
      assert u == Uploaded([Part(c, data)], None, c + 1);
    } else {
      UploadStops(payload, judge, aborts, c + 1);
      var rest := Upload(payload, judge, aborts, c + 1);
      assert u == Uploaded([Part(c, data)] + rest.sent, rest.failure, rest.flagReads);
      StopsAfterPart(u, rest, Part(c, data), payload, aborts, c);
    }
  }

  /** A loop head that finds the flag clear and sends a full part before
      running on from the next head stops rightly if that run does. */
  lemma StopsAfterPart(u: Uploaded, rest: Uploaded, part: Step, payload: Bytes, aborts: seq<bool>, c: nat)
    requires !AbortSeen(aborts, c)
    requires StopsRightly(rest, payload, aborts, c + 1)
    requires u == Uploaded([part] + rest.sent, rest.failure, rest.flagReads)
    ensures StopsRightly(u, payload, aborts, c)
  {
    assert c + |u.sent| == (c + 1) + |rest.sent|;
  }

  /** Every part the chunk loop sends from head `c` on, except a rejected
      last one, was accepted by its reply. */
  lemma {:induction false} UploadAccepts(payload: Bytes, judge: Judge, aborts: seq<bool>, c: nat)
    requires ChunkSize * c <= |payload|
    ensures var u := Upload(payload, judge, aborts, c);
      AcceptedUpTo(u.sent, judge, OpeningLength + c, |u.sent| - (if u.failure.Some? then 1 else 0))
    decreases |payload| - ChunkSize * c
  {
    var data := Slice(payload, c);
    var u := Upload(payload, judge, aborts, c);
    if AbortSeen(aborts, c) || |data| == 0 {
      assert u.sent == [];
    } else if judge(OpeningLength + c, Part(c, data)).Some? {
      assert |u.sent| == 1 && u.failure.Some?;
    } else if |data| < ChunkSize {
      assert u == Uploaded([Part(c, data)], None, c + 1);
    } else {
      UploadAccepts(payload, judge, aborts, c + 1);
      var rest := Upload(payload, judge, aborts, c + 1);
      assert u == Uploaded([Part(c, data)] + rest.sent, rest.failure, rest.flagReads);
      forall j | 0 <= j < |u.sent| - (if u.failure.Some? then 1 else 0) && j < |u.sent|
        ensures judge(OpeningLength + c + j, u.sent[j]).None?
      {
        if j > 0 {
          assert u.sent[j] == rest.sent[j - 1];
          assert OpeningLength + c + j == OpeningLength + (c + 1) + (j - 1);
        } else {
          assert u.sent[0] == Part(c, data) && OpeningLength + c + j == OpeningLength + c;
        }
      }
    }
  }

  /** When the chunk loop from head `c` on fails, the failure is the
      verdict on the part read at its last loop head. */
  lemma {:induction false} UploadRejects(payload: Bytes, judge: Judge, aborts: seq<bool>, c: nat)
    requires ChunkSize * c <= |payload|
    ensures var u := Upload(payload, judge, aborts, c);
      u.failure.Some? ==>
        var last := u.flagReads - 1;
        && c <= last && ChunkSize * last <= |payload|
        && judge(OpeningLength + last, Part(last, Slice(payload, last))) == u.failure
    decreases |payload| - ChunkSize * c
  {
    var data := Slice(payload, c);
    var u := Upload(payload, judge, aborts, c);
    if AbortSeen(aborts, c) || |data| == 0 {
      assert u.failure.None?;
    } else if judge(OpeningLength + c, Part(c, data)).Some? {
      assert u == Uploaded([Part(c, data)], judge(OpeningLength + c, Part(c, data)), c + 1);
    } else if |data| < ChunkSize {
      assert u.failure.None?;
    } else {
      UploadRejects(payload, judge, aborts, c + 1);
      var rest := Upload(payload, judge, aborts, c + 1);
      assert u.failure == rest.failure && u.flagReads == rest.flagReads;
    }
  }

  /** Once set, the abort flag stays set. */
  lemma AbortSticky(aborts: seq<bool>, i: nat, j: nat)
    requires AbortSeen(aborts, i) && i <= j
    ensures AbortSeen(aborts, j)
  {
    var w :| 0 <= w < |aborts| && w <= i && aborts[w];
    assert w <= j;
  }

  /** A flag found clear at a read was clear at every earlier read. */
  lemma AbortClear(aborts: seq<bool>, i: nat, j: nat)
    requires !AbortSeen(aborts, j) && i <= j
    ensures !AbortSeen(aborts, i)
  {
  }

  /** A run of exchanges sends a prefix of its steps, and all of them
      when no reply rejects. */
  lemma {:induction false} ExchangePrefix(steps: seq<Step>, judge: Judge, first: nat)
    ensures var e := Exchange(steps, judge, first);
      && |e.sent| <= |steps|
      && e.sent == steps[..|e.sent|]
      && (e.failure.None? ==> e.sent == steps)
      && (e.failure.Some? ==> |e.sent| >= 1)
    decreases |steps|
  {
    if |steps| > 0 {
      var e := Exchange(steps, judge, first);
      if judge(first, steps[0]).None? {
        ExchangePrefix(steps[1..], judge, first + 1);
        var rest := Exchange(steps[1..], judge, first + 1);
        assert e == Exchanged([steps[0]] + rest.sent, rest.failure);
        assert [steps[0]] + steps[1..][..|rest.sent|] == steps[..|e.sent|];
        assert [steps[0]] + steps[1..] == steps;
      } else {
        assert e == Exchanged([steps[0]], judge(first, steps[0]));
        assert e.sent == steps[..1];
      }
    }
  }

  /** Every step a run of exchanges sends is accepted by its reply, but a
      rejected last one. */
  lemma {:induction false} ExchangeAccepts(steps: seq<Step>, judge: Judge, first: nat)
    ensures var e := Exchange(steps, judge, first);
      AcceptedUpTo(e.sent, judge, first, |e.sent| - (if e.failure.Some? then 1 else 0))
    decreases |steps|
  {
    if |steps| > 0 {
      var e := Exchange(steps, judge, first);
      if judge(first, steps[0]).None? {
        ExchangeAccepts(steps[1..], judge, first + 1);
        var rest := Exchange(steps[1..], judge, first + 1);
        assert e == Exchanged([steps[0]] + rest.sent, rest.failure);
        forall j | 0 <= j < |e.sent| - (if e.failure.Some? then 1 else 0) && j < |e.sent|
          ensures judge(first + j, e.sent[j]).None?
        {
          if j > 0 {
            assert e.sent[j] == rest.sent[j - 1];
            assert first + j == first + 1 + (j - 1);
          }
        }
      } else {
        assert |e.sent| == 1 && e.failure.Some?;
      }
    }
  }

  /** A run of exchanges that fails, fails with the verdict on the reply
      to its last step. */
  lemma {:induction false} ExchangeRejects(steps: seq<Step>, judge: Judge, first: nat)
    ensures var e := Exchange(steps, judge, first);
      e.failure.Some? ==>
        |e.sent| >= 1 && judge(first + |e.sent| - 1, e.sent[|e.sent| - 1]) == e.failure
    decreases |steps|
  {
    if |steps| > 0 {
      var e := Exchange(steps, judge, first);
      if judge(first, steps[0]).None? {
        ExchangeRejects(steps[1..], judge, first + 1);
        var rest := Exchange(steps[1..], judge, first + 1);
        assert e == Exchanged([steps[0]] + rest.sent, rest.failure);
        if rest.failure.Some? {
          assert e.sent[|e.sent| - 1] == rest.sent[|rest.sent| - 1];
          assert first + |e.sent| - 1 == first + 1 + |rest.sent| - 1;
        }
      } else {
        assert e == Exchanged([steps[0]], judge(first, steps[0]));
      }
    }
  }

  /** Acceptance of two consecutive runs of steps. */
  lemma AcceptedAppend(a: seq<Step>, b: seq<Step>, judge: Judge, first: nat, upto: int)
    requires AcceptedUpTo(a, judge, first, |a|)
    requires AcceptedUpTo(b, judge, first + |a|, upto)
    ensures AcceptedUpTo(a + b, judge, first, |a| + upto)
  {
    forall j | 0 <= j < |a| + upto && j < |a + b|
      ensures judge(first + j, (a + b)[j]).None?
    {
      if j >= |a| {
        assert (a + b)[j] == b[j - |a|];
        assert first + j == first + |a| + (j - |a|);
      }
    }
  }

  /** The exchanges of a session with the given opening and closing
      commands, in order; `Plan` is the script of the routine's commands. */
  function Script(opening: seq<Step>, payload: Bytes, closing: seq<Step>): (r: seq<Step>)
    ensures |r| == |opening| + |Parts(payload)| + |closing|
  {
    opening + Parts(payload) + closing
  }

  /** The script cut inside the parts and inside the closing commands. */
  lemma ScriptPrefixes(opening: seq<Step>, payload: Bytes, closing: seq<Step>, k: nat, m: nat)
    requires k <= |Parts(payload)| && m <= |closing|
    ensures var script := Script(opening, payload, closing);
      && script[..|opening| + k] == opening + Parts(payload)[..k]
      && script[..|opening| + |Parts(payload)| + m] == opening + Parts(payload) + closing[..m]
  {
    var script := Script(opening, payload, closing);
    var parts := Parts(payload);
    assert script[..|opening| + k] == opening + parts[..k];
    assert script[..|opening| + |parts| + m] == opening + parts + closing[..m];
  }

  /** What a run of exchanges did, as the walk lemmas establish it. */
  predicate ExchangeFacts(e: Exchanged, steps: seq<Step>, judge: Judge, first: nat)
  {
    && |e.sent| <= |steps|
    && e.sent == steps[..|e.sent|]
    && (e.failure.None? ==> e.sent == steps)
    && AcceptedUpTo(e.sent, judge, first, |e.sent| - (if e.failure.Some? then 1 else 0))
    && (e.failure.Some? ==>
          |e.sent| >= 1 && judge(first + |e.sent| - 1, e.sent[|e.sent| - 1]) == e.failure)
  }

  lemma ExchangeFactsHold(steps: seq<Step>, judge: Judge, first: nat)
    ensures ExchangeFacts(Exchange(steps, judge, first), steps, judge, first)
  {
    ExchangePrefix(steps, judge, first);
    ExchangeAccepts(steps, judge, first);
    ExchangeRejects(steps, judge, first);
  }

  /** What the chunk loop did, as the walk lemmas establish it from its
      first head on. */
  predicate UploadFacts(u: Uploaded, payload: Bytes, judge: Judge, aborts: seq<bool>)
  {
    var parts := Parts(payload);
    var whole := |payload| / ChunkSize;
    && |parts| <= whole + 1
    && 0 < u.flagReads <= whole + 1
    && |u.sent| <= |parts|
    && u.sent == parts[..|u.sent|]
    && (|u.sent| >= 1 ==> !AbortSeen(aborts, |u.sent| - 1))
    && AcceptedUpTo(u.sent, judge, OpeningLength, |u.sent| - (if u.failure.Some? then 1 else 0))
    && (u.failure.Some? ==>
          && |u.sent| >= 1
          && judge(OpeningLength + |u.sent| - 1, u.sent[|u.sent| - 1]) == u.failure)
    && (u.failure.None? ==>
          if AbortSeen(aborts, u.flagReads - 1) then |u.sent| == u.flagReads - 1
          else u.flagReads == whole + 1 && |u.sent| == |parts|)
  }

  /** The walk lemmas' facts from the first loop head on make up `UploadFacts`. */
  lemma UploadFactsFromWalk(u: Uploaded, payload: Bytes, judge: Judge, aborts: seq<bool>)
    requires 0 + |u.sent| <= |Parts(payload)| && u.sent == Parts(payload)[0..0 + |u.sent|]
    requires 0 < u.flagReads <= |payload| / ChunkSize + 1
    requires |u.sent| >= 1 ==> !AbortSeen(aborts, 0 + |u.sent| - 1)
    requires u.failure.Some? ==> |u.sent| >= 1 && 0 + |u.sent| == u.flagReads
    requires u.failure.None? ==>
      if AbortSeen(aborts, u.flagReads - 1) then 0 + |u.sent| == u.flagReads - 1
      else u.flagReads == |payload| / ChunkSize + 1 && 0 + |u.sent| == |Parts(payload)|
    requires AcceptedUpTo(u.sent, judge, OpeningLength + 0, |u.sent| - (if u.failure.Some? then 1 else 0))
    requires u.failure.Some? ==>
      var last := u.flagReads - 1;
      && 0 <= last && ChunkSize * last <= |payload|
      && judge(OpeningLength + last, Part(last, Slice(payload, last))) == u.failure
    ensures UploadFacts(u, payload, judge, aborts)
  {
    ChunkLayout(payload);
    assert Parts(payload)[0..0 + |u.sent|] == Parts(payload)[..|u.sent|];
    if u.failure.Some? {
      SliceAt(payload, u.flagReads - 1);
      assert u.sent[|u.sent| - 1] == Parts(payload)[u.flagReads - 1];
    }
  }

  lemma UploadFactsHold(payload: Bytes, judge: Judge, aborts: seq<bool>)
    ensures UploadFacts(Upload(payload, judge, aborts, 0), payload, judge, aborts)
  {
    UploadSends(payload, judge, aborts, 0);
    UploadStops(payload, judge, aborts, 0);
    UploadAccepts(payload, judge, aborts, 0);
    UploadRejects(payload, judge, aborts, 0);
    UploadFactsFromWalk(Upload(payload, judge, aborts, 0), payload, judge, aborts);
  }

  /** The facts `Conclude` combines: an opening of `OpeningLength`
      commands, the chunk loop, and closing exchanges answered from the
      reply after the last part's. */
  predicate DialogueFacts(start: Exchanged, u: Uploaded, finish: Exchanged, opening: seq<Step>, payload: Bytes,
                         closing: seq<Step>, judge: Judge, aborts: seq<bool>)
  {
    && |opening| == OpeningLength
    && ExchangeFacts(start, opening, judge, 0)
    && UploadFacts(u, payload, judge, aborts)
    && ExchangeFacts(finish, closing, judge, |start.sent| + |u.sent|)
  }

  /** A session sends a prefix of its script. */
  lemma ConcludeFollowsScript(start: Exchanged, u: Uploaded, finish: Exchanged, opening: seq<Step>,
                              payload: Bytes, closing: seq<Step>, judge: Judge, aborts: seq<bool>)
    requires DialogueFacts(start, u, finish, opening, payload, closing, judge, aborts)
    ensures var t := Conclude(start, u, finish, aborts);
      var script := Script(opening, payload, closing);
      |t.sent| <= |script| && t.sent == script[..|t.sent|]
  {
    var t := Conclude(start, u, finish, aborts);
    if start.failure.Some? {
      ScriptPrefixes(opening, payload, closing, 0, 0);
      assert Script(opening, payload, closing)[..|t.sent|] == opening[..|t.sent|];
    } else if u.failure.Some? || AbortSeen(aborts, u.flagReads) {
      ScriptPrefixes(opening, payload, closing, |u.sent|, 0);
    } else {
      AbortClear(aborts, u.flagReads - 1, u.flagReads);
      ScriptPrefixes(opening, payload, closing, |u.sent|, |finish.sent|);
    }
  }

  /** Every request a session sends is accepted by its reply, except the
      last one of a failed session. */
  lemma ConcludeAccepted(start: Exchanged, u: Uploaded, finish: Exchanged, judge: Judge, aborts: seq<bool>)
    requires start.failure.None? ==> |start.sent| == OpeningLength
    requires AcceptedUpTo(start.sent, judge, 0, |start.sent| - (if start.failure.Some? then 1 else 0))
    requires AcceptedUpTo(u.sent, judge, OpeningLength, |u.sent| - (if u.failure.Some? then 1 else 0))
    requires AcceptedUpTo(finish.sent, judge, |start.sent| + |u.sent|,
                          |finish.sent| - (if finish.failure.Some? then 1 else 0))
    ensures var t := Conclude(start, u, finish, aborts);
      AcceptedUpTo(t.sent, judge, 0, |t.sent| - (if t.outcome.Failed? then 1 else 0))
  {
    if start.failure.None? {
      if u.failure.Some? || AbortSeen(aborts, u.flagReads) {
        AcceptedAppend(start.sent, u.sent, judge, 0, |u.sent| - (if u.failure.Some? then 1 else 0));
      } else {
        AcceptedAppend(start.sent, u.sent, judge, 0, |u.sent|);
        var sent := start.sent + u.sent;
        AcceptedAppend(sent, finish.sent, judge, 0, |finish.sent| - (if finish.failure.Some? then 1 else 0));
      }
    }
  }

  /** A connected session that fails, fails with the verdict on the reply
      to the last request it sent. */
  lemma ConcludeRejected(start: Exchanged, u: Uploaded, finish: Exchanged, opening: seq<Step>,
                         payload: Bytes, closing: seq<Step>, judge: Judge, aborts: seq<bool>)
    requires DialogueFacts(start, u, finish, opening, payload, closing, judge, aborts)
    ensures var t := Conclude(start, u, finish, aborts);
      t.outcome.Failed? ==>
        |t.sent| >= 1 && judge(|t.sent| - 1, t.sent[|t.sent| - 1]) == Some(t.outcome.message)
  {
    var t := Conclude(start, u, finish, aborts);
    if start.failure.None? {
      var sent := start.sent + u.sent;
      if u.failure.Some? {
        assert t.sent[|t.sent| - 1] == u.sent[|u.sent| - 1];
        assert |t.sent| - 1 == OpeningLength + |u.sent| - 1;
      } else if !AbortSeen(aborts, u.flagReads) && finish.failure.Some? {
        assert t.sent[|t.sent| - 1] == finish.sent[|finish.sent| - 1];
        assert |t.sent| - 1 == |sent| + |finish.sent| - 1;
      }
    }
  }

  /** A session completes only when every request of its script was sent
      and accepted and the abort flag was never found set. */
  lemma ConcludeDone(start: Exchanged, u: Uploaded, finish: Exchanged, opening: seq<Step>,
                     payload: Bytes, closing: seq<Step>, judge: Judge, aborts: seq<bool>)
    requires |opening| == OpeningLength
    requires start.failure.None? ==> start.sent == opening
    requires 0 < u.flagReads
    requires u.failure.None? && !AbortSeen(aborts, u.flagReads - 1) ==>
      u.flagReads == |payload| / ChunkSize + 1 && u.sent == Parts(payload)
    requires finish.failure.None? ==> finish.sent == closing
    requires AcceptedUpTo(start.sent, judge, 0, |start.sent| - (if start.failure.Some? then 1 else 0))
    requires AcceptedUpTo(u.sent, judge, OpeningLength, |u.sent| - (if u.failure.Some? then 1 else 0))
    requires AcceptedUpTo(finish.sent, judge, |start.sent| + |u.sent|,
                          |finish.sent| - (if finish.failure.Some? then 1 else 0))
    ensures var t := Conclude(start, u, finish, aborts);
      var script := Script(opening, payload, closing);
      t.outcome == Done ==>
        && t.sent == script
        && AcceptedUpTo(script, judge, 0, |script|)
        && !AbortSeen(aborts, |payload| / ChunkSize + 1)
  {
    var t := Conclude(start, u, finish, aborts);
    if t.outcome == Done {
      AbortClear(aborts, u.flagReads - 1, u.flagReads);
      ConcludeAccepted(start, u, finish, judge, aborts);
    }
  }

  /** A run of exchanges whose every reply accepts sends every step. */
  lemma ExchangeAcceptedThrough(e: Exchanged, steps: seq<Step>, judge: Judge, first: nat)
    requires ExchangeFacts(e, steps, judge, first)
    requires AcceptedUpTo(steps, judge, first, |steps|)
    ensures e.failure.None? && e.sent == steps
  {
    if |e.sent| >= 1 {
      assert e.sent[|e.sent| - 1] == steps[|e.sent| - 1];
    }
  }

  /** A chunk loop whose every reply accepts, and which never finds the
      abort flag set, sends every part. */
  lemma UploadAcceptedThrough(u: Uploaded, payload: Bytes, judge: Judge, aborts: seq<bool>)
    requires UploadFacts(u, payload, judge, aborts)
    requires AcceptedUpTo(Parts(payload), judge, OpeningLength, |Parts(payload)|)
    requires !AbortSeen(aborts, |payload| / ChunkSize + 1)
    ensures u.failure.None? && !AbortSeen(aborts, u.flagReads) && u.sent == Parts(payload)
  {
    if |u.sent| >= 1 {
      assert u.sent[|u.sent| - 1] == Parts(payload)[|u.sent| - 1];
    }
    AbortClear(aborts, u.flagReads, |payload| / ChunkSize + 1);
    AbortClear(aborts, u.flagReads - 1, |payload| / ChunkSize + 1);
  }

  /** A script accepted throughout has its opening, its parts and its
      closing commands accepted, each answered in turn. */
  lemma ScriptAcceptedSplits(opening: seq<Step>, payload: Bytes, closing: seq<Step>, judge: Judge)
    requires AcceptedUpTo(Script(opening, payload, closing), judge, 0, |Script(opening, payload, closing)|)
    ensures AcceptedUpTo(opening, judge, 0, |opening|)
    ensures AcceptedUpTo(Parts(payload), judge, |opening|, |Parts(payload)|)
    ensures AcceptedUpTo(closing, judge, |opening| + |Parts(payload)|, |closing|)
  {
    var script := Script(opening, payload, closing);
    var parts := Parts(payload);
    forall j | 0 <= j < |opening| && j < |opening|
      ensures judge(0 + j, opening[j]).None?
    {
      assert script[j] == opening[j];
    }
    forall j | 0 <= j < |parts| && j < |parts|
      ensures judge(|opening| + j, parts[j]).None?
    {
      assert script[|opening| + j] == parts[j];
    }
    forall j | 0 <= j < |closing| && j < |closing|
      ensures judge(|opening| + |parts| + j, closing[j]).None?
    {
      assert script[|opening| + |parts| + j] == closing[j];
    }
  }

  /** A session whose every reply accepts and whose abort flag is never
      found set completes. */
  lemma ConcludeDoneIfAccepted(start: Exchanged, u: Uploaded, finish: Exchanged, opening: seq<Step>,
                               payload: Bytes, closing: seq<Step>, judge: Judge, aborts: seq<bool>)
    requires DialogueFacts(start, u, finish, opening, payload, closing, judge, aborts)
    requires AcceptedUpTo(opening, judge, 0, |opening|)
    requires AcceptedUpTo(Parts(payload), judge, |opening|, |Parts(payload)|)
    requires AcceptedUpTo(closing, judge, |opening| + |Parts(payload)|, |closing|)
    requires !AbortSeen(aborts, |payload| / ChunkSize + 1)
    ensures Conclude(start, u, finish, aborts).outcome == Done
  {
    ExchangeAcceptedThrough(start, opening, judge, 0);
    UploadAcceptedThrough(u, payload, judge, aborts);
    ExchangeAcceptedThrough(finish, closing, judge, OpeningLength + |Parts(payload)|);
  }

  /** A session that ends aborted had sent its opening and some of the
      parts, nothing after them, and found the abort flag set no later than
      the read after the last part. */
  lemma ConcludeAborted(start: Exchanged, u: Uploaded, finish: Exchanged, opening: seq<Step>,
                        payload: Bytes, aborts: seq<bool>)
    requires |opening| == OpeningLength
    requires start.failure.None? ==> start.sent == opening
    requires u.flagReads <= |payload| / ChunkSize + 1
    requires |u.sent| <= |Parts(payload)| && u.sent == Parts(payload)[..|u.sent|]
    ensures var t := Conclude(start, u, finish, aborts);
      t.outcome == Aborted ==>
        && OpeningLength <= |t.sent| <= OpeningLength + |Parts(payload)|
        && t.sent == opening + Parts(payload)[..|t.sent| - OpeningLength]
        && AbortSeen(aborts, |payload| / ChunkSize + 1)
  {
    if Conclude(start, u, finish, aborts).outcome == Aborted {
      AbortSticky(aborts, u.flagReads, |payload| / ChunkSize + 1);
    }
  }

  /** The chunk loop honours the first press of the abort button: pressed
      first before flag read `c`, with every part before it accepted, the
      loop sends exactly the parts before `c` and ends with the flag set. */
  lemma UploadStopsAtAbort(u: Uploaded, payload: Bytes, judge: Judge, aborts: seq<bool>, c: nat)
    requires UploadFacts(u, payload, judge, aborts)
    requires c <= |payload| / ChunkSize + 1
    requires AbortSeen(aborts, c) && (c == 0 || !AbortSeen(aborts, c - 1))
    requires AcceptedUpTo(Parts(payload), judge, OpeningLength, Min(c, |Parts(payload)|))
    ensures u.failure.None? && AbortSeen(aborts, u.flagReads) && |u.sent| == Min(c, |Parts(payload)|)
  {
    if |u.sent| >= 1 {
      assert u.sent[|u.sent| - 1] == Parts(payload)[|u.sent| - 1];
    }
  }

  /** A session honours the first press of the abort button: pressed first
      before flag read `c`, with the opening and every part before `c`
      accepted, it sends exactly those and ends aborted. */
  lemma ConcludeAbortHonoured(start: Exchanged, u: Uploaded, finish: Exchanged, opening: seq<Step>,
                              payload: Bytes, closing: seq<Step>, judge: Judge, aborts: seq<bool>, c: nat)
    requires DialogueFacts(start, u, finish, opening, payload, closing, judge, aborts)
    requires c <= |payload| / ChunkSize + 1
    requires AbortSeen(aborts, c) && (c == 0 || !AbortSeen(aborts, c - 1))
    requires AcceptedUpTo(opening, judge, 0, |opening|)
    requires AcceptedUpTo(Parts(payload), judge, OpeningLength, Min(c, |Parts(payload)|))
    ensures var t := Conclude(start, u, finish, aborts);
      && t.outcome == Aborted
      && t.sent == Script(opening, payload, closing)[..OpeningLength + Min(c, |Parts(payload)|)]
  {
    ExchangeAcceptedThrough(start, opening, judge, 0);
    UploadStopsAtAbort(u, payload, judge, aborts, c);
    ScriptPrefixes(opening, payload, closing, Min(c, |Parts(payload)|), 0);
  }

  /** A dialogue is the conclusion of its three stages, each of which
      went as the walk lemmas say. */
  lemma DialogueFactsHold(opening: seq<Step>, payload: Bytes, closing: seq<Step>,
                          judge: Judge, aborts: seq<bool>)
    returns (start: Exchanged, u: Uploaded, finish: Exchanged)
    requires |opening| == OpeningLength
    ensures Dialogue(opening, payload, closing, judge, aborts) == Conclude(start, u, finish, aborts)
    ensures DialogueFacts(start, u, finish, opening, payload, closing, judge, aborts)
  {
    start := Exchange(opening, judge, 0);
    u := Upload(payload, judge, aborts, 0);
    finish := Exchange(closing, judge, |start.sent| + |u.sent|);
    ExchangeFactsHold(opening, judge, 0);
    UploadFactsHold(payload, judge, aborts);
    ExchangeFactsHold(closing, judge, |start.sent| + |u.sent|);
  }

  lemma DialogueFollowsScript(opening: seq<Step>, payload: Bytes, closing: seq<Step>,
                              judge: Judge, aborts: seq<bool>)
    requires |opening| == OpeningLength
    ensures var t := Dialogue(opening, payload, closing, judge, aborts);
      |t.sent| <= |Script(opening, payload, closing)| && t.sent == Script(opening, payload, closing)[..|t.sent|]
  {
    var start, u, finish := DialogueFactsHold(opening, payload, closing, judge, aborts);
    ConcludeFollowsScript(start, u, finish, opening, payload, closing, judge, aborts);
  }

  lemma DialogueStopsAtFirstRejection(opening: seq<Step>, payload: Bytes, closing: seq<Step>,
                                      judge: Judge, aborts: seq<bool>)
    requires |opening| == OpeningLength
    ensures var t := Dialogue(opening, payload, closing, judge, aborts);
      && AcceptedUpTo(t.sent, judge, 0, |t.sent| - (if t.outcome.Failed? then 1 else 0))
      && (t.outcome.Failed? ==>
            |t.sent| >= 1 && judge(|t.sent| - 1, t.sent[|t.sent| - 1]) == Some(t.outcome.message))
  {
    var start, u, finish := DialogueFactsHold(opening, payload, closing, judge, aborts);
    ConcludeAccepted(start, u, finish, judge, aborts);
    ConcludeRejected(start, u, finish, opening, payload, closing, judge, aborts);
  }

  lemma DialogueDone(opening: seq<Step>, payload: Bytes, closing: seq<Step>,
                     judge: Judge, aborts: seq<bool>)
    requires |opening| == OpeningLength
    ensures var t := Dialogue(opening, payload, closing, judge, aborts);
      var script := Script(opening, payload, closing);
      t.outcome == Done <==>
        && AcceptedUpTo(script, judge, 0, |script|)
        && !AbortSeen(aborts, |payload| / ChunkSize + 1)
    ensures var t := Dialogue(opening, payload, closing, judge, aborts);
      t.outcome == Done ==> t.sent == Script(opening, payload, closing)
  {
    var start, u, finish := DialogueFactsHold(opening, payload, closing, judge, aborts);
    ConcludeDone(start, u, finish, opening, payload, closing, judge, aborts);
    var script := Script(opening, payload, closing);
    if AcceptedUpTo(script, judge, 0, |script|) && !AbortSeen(aborts, |payload| / ChunkSize + 1) {
      ScriptAcceptedSplits(opening, payload, closing, judge);
      ConcludeDoneIfAccepted(start, u, finish, opening, payload, closing, judge, aborts);
    }
  }

  lemma DialogueAborted(opening: seq<Step>, payload: Bytes, closing: seq<Step>,
                        judge: Judge, aborts: seq<bool>)
    requires |opening| == OpeningLength
    ensures var t := Dialogue(opening, payload, closing, judge, aborts);
      t.outcome == Aborted ==>
        && OpeningLength <= |t.sent| <= OpeningLength + |Parts(payload)|
        && t.sent == opening + Parts(payload)[..|t.sent| - OpeningLength]
        && AbortSeen(aborts, |payload| / ChunkSize + 1)
  {
    var start, u, finish := DialogueFactsHold(opening, payload, closing, judge, aborts);
    ConcludeAborted(start, u, finish, opening, payload, aborts);
  }

  /** The replies to a prefix of a script, cut inside the parts. */
  lemma PrefixAcceptedSplits(opening: seq<Step>, payload: Bytes, closing: seq<Step>, judge: Judge, m: nat)
    requires m <= |Parts(payload)|
    requires AcceptedUpTo(Script(opening, payload, closing), judge, 0, |opening| + m)
    ensures AcceptedUpTo(opening, judge, 0, |opening|)
    ensures AcceptedUpTo(Parts(payload), judge, |opening|, m)
  {
    var script := Script(opening, payload, closing);
    var parts := Parts(payload);
    forall j | 0 <= j < |opening| && j < |opening|
      ensures judge(0 + j, opening[j]).None?
    {
      assert script[j] == opening[j];
    }
    forall j | 0 <= j < m && j < |parts|
      ensures judge(|opening| + j, parts[j]).None?
    {
      assert script[|opening| + j] == parts[j];
    }
  }

  lemma DialogueAbortHonoured(opening: seq<Step>, payload: Bytes, closing: seq<Step>,
                              judge: Judge, aborts: seq<bool>, c: nat)
    requires |opening| == OpeningLength
    requires c <= |payload| / ChunkSize + 1
    requires AbortSeen(aborts, c) && (c == 0 || !AbortSeen(aborts, c - 1))
    requires AcceptedUpTo(Script(opening, payload, closing), judge, 0, OpeningLength + Min(c, |Parts(payload)|))
    ensures var t := Dialogue(opening, payload, closing, judge, aborts);
      && t.outcome == Aborted
      && t.sent == Script(opening, payload, closing)[..OpeningLength + Min(c, |Parts(payload)|)]
  {
    var start, u, finish := DialogueFactsHold(opening, payload, closing, judge, aborts);
    PrefixAcceptedSplits(opening, payload, closing, judge, Min(c, |Parts(payload)|));
    ConcludeAbortHonoured(start, u, finish, opening, payload, closing, judge, aborts, c);
  }
  /** A session sends a prefix of the plan: never a request out of order,
      never one twice, never one the plan does not contain. */
  lemma SentFollowsPlan(connection: Connection, payload: Bytes, name: string,
                        responses: seq<string>, aborts: seq<bool>)
    ensures var t := Run(connection, payload, name, responses, aborts);
      |t.sent| <= |Plan(payload, name)| && t.sent == Plan(payload, name)[..|t.sent|]
  {
    if connection.Connected? {
      DialogueFollowsScript(Opening(payload, name), payload, Closing(name), Replies(responses), aborts);
    }
  }

  /** Every request a session sends is accepted by its reply except the
      last one of a failed session; a connected session that fails, fails
      with the verdict on the reply to the last request it sent. */
  lemma StopsAtFirstRejection(connection: Connection, payload: Bytes, name: string,
                              responses: seq<string>, aborts: seq<bool>)
    ensures var t := Run(connection, payload, name, responses, aborts);
      && AcceptedUpTo(t.sent, Replies(responses), 0, |t.sent| - (if t.outcome.Failed? then 1 else 0))
      && (t.outcome.Failed? && connection.Connected? ==>
            |t.sent| >= 1 && Verdict(t.sent[|t.sent| - 1], Response(responses, |t.sent| - 1)) == Some(t.outcome.message))
  {
    if connection.Connected? {
      DialogueStopsAtFirstRejection(Opening(payload, name), payload, Closing(name), Replies(responses), aborts);
    }
  }

  /** A session completes exactly when it connects, every reply to the
      plan's requests accepts, and the abort flag is still clear at the
      read after the last part; a completed session sent the whole plan. */
  lemma DoneIff(connection: Connection, payload: Bytes, name: string,
                responses: seq<string>, aborts: seq<bool>)
    ensures var t := Run(connection, payload, name, responses, aborts);
      var plan := Plan(payload, name);
      t.outcome == Done <==>
        && connection.Connected?
        && AcceptedUpTo(plan, Replies(responses), 0, |plan|)
        && !AbortSeen(aborts, |payload| / ChunkSize + 1)
    ensures var t := Run(connection, payload, name, responses, aborts);
      t.outcome == Done ==> t.sent == Plan(payload, name)
  {
    if connection.Connected? {
      DialogueDone(Opening(payload, name), payload, Closing(name), Replies(responses), aborts);
    }
  }

  /** A session that ends aborted was connected, sent the opening commands
      and some of the parts and nothing else (neither M29 nor M23), and the
      button had been pressed by the read after the last part. */
  lemma AbortedBeforeSaving(connection: Connection, payload: Bytes, name: string,
                            responses: seq<string>, aborts: seq<bool>)
    ensures var t := Run(connection, payload, name, responses, aborts);
      t.outcome == Aborted ==>
        && connection.Connected?
        && OpeningLength <= |t.sent| <= OpeningLength + |Parts(payload)|
        && t.sent == Opening(payload, name) + Parts(payload)[..|t.sent| - OpeningLength]
        && AbortSeen(aborts, |payload| / ChunkSize + 1)
  {
    if connection.Connected? {
      DialogueAborted(Opening(payload, name), payload, Closing(name), Replies(responses), aborts);
    }
  }

  /** The abort button is honoured at the next read of the flag: pressed
      first before read `c` (the head of the chunk loop for part `c`, or the
      check after the loop), with the replies so far accepting, the session
      sends the opening and the parts before `c` and ends aborted. The
      opening commands are never interrupted. */
  lemma AbortHonoured(payload: Bytes, name: string, responses: seq<string>, aborts: seq<bool>, c: nat)
    requires c <= |payload| / ChunkSize + 1
    requires AbortSeen(aborts, c) && (c == 0 || !AbortSeen(aborts, c - 1))
    requires AcceptedUpTo(Plan(payload, name), Replies(responses), 0, OpeningLength + Min(c, |Parts(payload)|))
    ensures var t := Run(Connected, payload, name, responses, aborts);
      && t.outcome == Aborted
      && t.sent == Plan(payload, name)[..OpeningLength + Min(c, |Parts(payload)|)]
  {
    DialogueAbortHonoured(Opening(payload, name), payload, Closing(name), Replies(responses), aborts, c);
  }

  /** Replies a device gives to the opening commands and to a part it
      accepts. */
  const OpeningAccepted: seq<string> := [
    "CMD M601 Received.\r\nControl Success.",
    "CMD M650 Received.\r\nX:",
    "CMD M28 Received.\r\nWriting to file:",
    "ok"]

  lemma OpeningAcceptedAccepts(payload: Bytes, name: string)
    requires |payload| > ChunkSize
    ensures AcceptedUpTo(Plan(payload, name), Replies(OpeningAccepted), 0, OpeningLength + 1)
  {
    var plan := Plan(payload, name);
    ChunkLayout(payload);
    assert plan[0] == Initialize && plan[1] == StartUpload && plan[2] == CreateFile(|payload|, name);
    assert plan[3] == Parts(payload)[0];
    var judge := Replies(OpeningAccepted);
    assert judge(0, plan[0]) == Verdict(Initialize, OpeningAccepted[0]) == None;
    assert judge(1, plan[1]) == Verdict(StartUpload, OpeningAccepted[1]) == None;
    assert judge(2, plan[2]) == Verdict(CreateFile(|payload|, name), OpeningAccepted[2]) == None;
    assert !Contains("ok", "error");
    assert judge(3, plan[3]) == Verdict(plan[3], "ok") == None;
  }

  /** The first part of a payload longer than one chunk, after the
      opening commands. */
  lemma FirstPartOfPlan(payload: Bytes, name: string)
    requires |payload| > ChunkSize
    ensures |Parts(payload)| > 1
    ensures Plan(payload, name)[..OpeningLength + 1] == Opening(payload, name) + [Part(0, payload[..ChunkSize])]
  {
    ChunkLayout(payload);
    var plan := Plan(payload, name);
    assert plan[3] == Parts(payload)[0] == Part(0, payload[..ChunkSize]);
  }

  /** A press of the abort button while the first part is in flight: the
      device accepts the opening commands and the first part, the flag is
      found set at the next loop head, and the session ends aborted after
      sending the opening commands and the first 4096 bytes, neither M29
      nor M23. */
  lemma AbortBeforeSecondPart(payload: Bytes, name: string)
    requires |payload| > ChunkSize
    ensures Run(Connected, payload, name, OpeningAccepted, [false, true])
         == Trace(Opening(payload, name) + [Part(0, payload[..ChunkSize])], Aborted)
  {
    var aborts := [false, true];
    assert aborts[1] && !aborts[0];
    FirstPartOfPlan(payload, name);
    OpeningAcceptedAccepts(payload, name);
    AbortHonoured(payload, name, OpeningAccepted, aborts, 1);
  }
}
