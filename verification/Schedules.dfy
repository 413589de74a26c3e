/**
 Whole operations as schedules of atomic steps.

 An acknowledgement and a collection pass are several steps of `Runs`. Run without interference,
 those steps do what the whole operation is specified to do, so what is proved for every
 interleaving covers the operations as `PebbleStore` runs them.
 */
module Schedules {
  import opened ByteOrder
  import opened Ascending
  import opened Mailboxes
  import opened MailboxLaws
  import opened FlatStore
  import Batches
  import opened Runs

  /** The schedule leaves recipient `r` with mailbox `b` and everybody else alone. */
  ghost predicate OnlyBox(s: System, s': System, r: Bytes, b: Mailbox)
  {
    At(s', r).box == b && s'.clocks == s.clocks && forall q | q != r :: At(s', q) == At(s, q)
  }

  lemma Prepend(s: System, step: Step, rest: seq<Step>, size: Sizer)
    requires Possible(s, step) && Legal(Next(s, step, size), rest, size)
    ensures Legal(s, [step] + rest, size)
    ensures Exec(s, [step] + rest, size) == Exec(Next(s, step, size), rest, size)
  {
  }

  lemma AckStepOnly(s: System, step: Step, size: Sizer)
    requires step.AckStep?
    ensures OnlyBox(s, Next(s, step, size), step.r, AckBatch(At(s, step.r).box, step.ackSeq, step.batch, step.start))
  {
  }

  lemma {:induction false} AckWithinIsRun(s: System, size: Sizer, r: Bytes, ackSeq: Num, k: nat, start: Num,
                                          count: nat, left: nat)
    returns (steps: seq<Step>)
    requires Inv(s) && k >= 1 && start <= At(s, r).box.acked && AckAccepted(At(s, r).box, ackSeq)
    ensures Legal(s, steps, size)
    ensures var b := At(s, r).box;
            OnlyBox(s, Exec(s, steps, size), r, AckWithin(b, ackSeq, k, start, b.acked, count, left).0)
    decreases Due(At(s, r).box, ackSeq)
  {
    hide Inv, Next, AckBatch, AckWithin, BatchChecks, Due;
    var b := At(s, r).box;
    var step := AckStep(r, ackSeq, k, start);
    assert Possible(s, step);
    AckStepOnly(s, step, size);
    var vs := Victims(b, ackSeq, k);
    steps := [];
    if left < BatchChecks(b, ackSeq, k) {
      AckWithinStops(b, ackSeq, k, start, b.acked, count, left);
    } else if |vs| < k || Last(vs) >= ackSeq {
      AckWithinEnds(b, ackSeq, k, start, b.acked, count, left);
      Prepend(s, step, [], size);
      steps := [step] + [];
    } else {
      AckWithinGoesOn(b, ackSeq, k, start, b.acked, count, left);
      BatchContinues(s, r, ackSeq, k, start);
      StepKeeps(s, step, size);
      steps := AckWithinIsRun(Next(s, step, size), size, r, ackSeq, k, start, count + k, left - k);
      Prepend(s, step, steps, size);
      steps := [step] + steps;
    }
  }

  lemma BatchContinues(s: System, r: Bytes, ackSeq: Num, k: nat, start: Num)
    requires Inv(s) && k >= 1 && start <= At(s, r).box.acked && AckAccepted(At(s, r).box, ackSeq)
    requires var vs := Victims(At(s, r).box, ackSeq, k); vs != [] && Last(vs) < ackSeq
    ensures var b := At(s, r).box;
            var b' := AckBatch(b, ackSeq, k, start);
            && b'.acked == Last(Victims(b, ackSeq, k)) && b'.delivered == b.delivered && start <= b'.acked
            && Due(b', ackSeq) < Due(b, ackSeq)
  {
  }

  /** An acknowledgement, complete or cut short, is a run of the batches it commits. */
  lemma AckIsRun(s: System, size: Sizer, r: Bytes, ackSeq: Num, k: nat, budget: nat) returns (steps: seq<Step>)
    requires Inv(s) && k >= 1
    ensures Legal(s, steps, size)
    ensures OnlyBox(s, Exec(s, steps, size), r, AckUnder(At(s, r).box, ackSeq, k, budget).0)
  {
    hide AckWithin, Inv;
    steps := [];
    if AckAccepted(At(s, r).box, ackSeq) && budget >= 1 {
      steps := AckWithinIsRun(s, size, r, ackSeq, k, At(s, r).box.acked, 0, budget - 1);
    }
  }

  /***** Collection *****/

  /** The system's mailboxes are those of `w`. */
  ghost predicate Boxes(s: System, w: World)
  {
    forall r :: At(s, r).box == Box(w, r)
  }

  function EntryOf(ref: Ref): ExpEntry { ExpEntry(ref.expireAt, ref.storeSeq) }

  function Owners(refs: seq<Ref>): set<Bytes>
  {
    set i | 0 <= i < |refs| :: refs[i].r
  }

  /** What a scan found, by recipient. */
  function Found(refs: seq<Ref>): map<Bytes, set<ExpEntry>>
  {
    map r | r in Owners(refs) ::
      set i | 0 <= i < |refs| && refs[i].r == r :: EntryOf(refs[i])
  }

  ghost predicate Known(s: System, refs: seq<Ref>)
  {
    forall i | 0 <= i < |refs| :: EntryOf(refs[i]) in At(s, refs[i].r).refs
  }

  lemma ScanFinds(s: System, w: World, now: Num, refs: seq<Ref>, size: Sizer)
    requires Boxes(s, w) && forall i | 0 <= i < |refs| :: IsDue(w, now, refs[i])
    ensures var step := ScanStep(now, Found(refs));
            Possible(s, step) && Boxes(Next(s, step, size), w) && Known(Next(s, step, size), refs)
  {
    var step := ScanStep(now, Found(refs));
    forall r | r in Found(refs) ensures Enabled(At(s, r), step, r) {
      forall e | e in Found(refs)[r] ensures e in At(s, r).box.exp && e.expireAt <= now {
        var i :| 0 <= i < |refs| && refs[i].r == r && EntryOf(refs[i]) == e;
        assert IsDue(w, now, refs[i]);
      }
    }
    forall i | 0 <= i < |refs| ensures EntryOf(refs[i]) in At(Next(s, step, size), refs[i].r).refs {
      assert refs[i].r in Found(refs);
      assert EntryOf(refs[i]) in Found(refs)[refs[i].r];
    }
  }

  lemma CollectStepEffect(s: System, w: World, ref: Ref, size: Sizer)
    requires Boxes(s, w) && EntryOf(ref) in At(s, ref.r).refs
    ensures var step := CollectStep(ref.r, EntryOf(ref));
            && Possible(s, step) && Boxes(Next(s, step, size), Batches.CollectIn(w, ref))
            && forall q :: At(s, q).refs <= At(Next(s, step, size), q).refs
  {
    hide Collect;
    var s', w' := Next(s, CollectStep(ref.r, EntryOf(ref)), size), Batches.CollectIn(w, ref);
    forall q ensures At(s', q).box == Box(w', q) {
      assert At(s, q).box == Box(w, q);
    }
  }

  lemma {:induction false} CollectFirst(w: World, refs: seq<Ref>)
    requires refs != []
    ensures Batches.CollectAll(w, refs) == Batches.CollectAll(Batches.CollectIn(w, refs[0]), refs[1..])
  {
    hide Batches.CollectIn;
    if |refs| == 1 {
    } else {
      var front := refs[..|refs| - 1];
      CollectFirst(w, front);
      assert refs[1..][..|refs[1..]| - 1] == front[1..];
    }
  }

  lemma {:induction false} CollectsAreRun(s: System, w: World, refs: seq<Ref>, size: Sizer) returns (steps: seq<Step>)
    requires Boxes(s, w) && Known(s, refs)
    ensures Legal(s, steps, size) && Boxes(Exec(s, steps, size), Batches.CollectAll(w, refs))
    decreases |refs|
  {
    hide Boxes, Possible, Next, Batches.CollectIn;
    steps := [];
    if refs == [] {
    } else {
      var step := CollectStep(refs[0].r, EntryOf(refs[0]));
      CollectStepEffect(s, w, refs[0], size);
      CollectFirst(w, refs);
      steps := CollectsAreRun(Next(s, step, size), Batches.CollectIn(w, refs[0]), refs[1..], size);
      Prepend(s, step, steps, size);
      steps := [step] + steps;
    }
  }

  /** A collection pass, complete or cut short, is a run of one scan and the deletions that follow it. */
  lemma PassIsRun(s: System, w: World, now: Num, limit: int, refs: seq<Ref>, deleted: nat, size: Sizer)
    returns (steps: seq<Step>)
    requires Boxes(s, w) && Batches.FirstDue(w, now, limit, refs) && deleted <= |refs|
    ensures Legal(s, steps, size)
    ensures Boxes(Exec(s, steps, size), Batches.CollectAll(w, refs[..deleted]))
  {
    hide Boxes, Possible, Next, Found, IsDue;
    var step := ScanStep(now, Found(refs));
    ScanFinds(s, w, now, refs, size);
    steps := CollectsAreRun(Next(s, step, size), w, refs[..deleted], size);
    Prepend(s, step, steps, size);
    steps := [step] + steps;
  }
}
