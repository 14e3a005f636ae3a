/**
 * `SnatcherWorker` of gui.py: it looks up each class code, keeps the lookups
 * that found a class, builds the `addParam` forms and posts them for a bounded
 * number of rounds, checking its running flag before each lookup and each
 * round.
 *
 * The GUI thread's `stop` can run at any moment; here it arrives just before
 * the worker's flag read number `stopAt` (counting from 0), which covers every
 * interleaving as seen by the worker. The lookups (`course_search`) and the
 * replies to the posts are inputs.
 */
module Worker {
  import opened Base
  import opened CompactJson
  import opened Courses
  import opened Snatch

  /** A lookup the worker keeps: a reply whose `dataList` is present and not empty. */
  predicate Resolves(info: Option<CourseInfo>)
  {
    info.Some? && info.value.dataList.Some? && |info.value.dataList.value| > 0
  }

  /** The lookups kept, in order. */
  function Kept(infos: seq<Option<CourseInfo>>): seq<Option<CourseInfo>>
  {
    if infos == [] then []
    else
      var last := infos[|infos| - 1];
      Kept(infos[..|infos| - 1]) + (if Resolves(last) then [last] else [])
  }

  /** The codes whose lookup is reported as failed, in order. */
  function FailedCodes(codes: seq<string>, infos: seq<Option<CourseInfo>>): seq<string>
    requires |codes| == |infos|
  {
    if codes == [] then []
    else
      FailedCodes(codes[..|codes| - 1], infos[..|infos| - 1]) +
      (if Resolves(infos[|infos| - 1]) then [] else [codes[|codes| - 1]])
  }

  /** Keeping lookups of two stretches one after the other keeps each stretch's lookups, in order. */
  lemma {:induction false} KeptConcat(a: seq<Option<CourseInfo>>, b: seq<Option<CourseInfo>>)
    ensures Kept(a + b) == Kept(a) + Kept(b)
    decreases |b|
  {
    if b == [] {
      assert a + b == a;
    } else {
      KeptConcat(a, b[..|b| - 1]);
      assert (a + b)[..|a + b| - 1] == a + b[..|b| - 1];
    }
  }

  /** When every lookup resolves, all are kept. */
  lemma {:induction false} KeptAll(infos: seq<Option<CourseInfo>>)
    requires forall i :: 0 <= i < |infos| ==> Resolves(infos[i])
    ensures Kept(infos) == infos
  {
    if infos != [] {
      KeptAll(infos[..|infos| - 1]);
    }
  }

  /** A lookup is kept exactly when it is one of the lookups and resolves. */
  lemma {:induction false} KeptMembers(infos: seq<Option<CourseInfo>>, x: Option<CourseInfo>)
    ensures x in Kept(infos) <==> x in infos && Resolves(x)
  {
    if infos != [] {
      var init := infos[..|infos| - 1];
      KeptMembers(init, x);
      assert infos == init + [infos[|infos| - 1]];
    }
  }

  /**
   * Every lookup is either kept or reported as failed: the two together number
   * the lookups, and a code is reported as failed exactly when some lookup of
   * it did not resolve (the kept side is `KeptMembers`).
   */
  lemma {:induction false} LookupsPartition(codes: seq<string>, infos: seq<Option<CourseInfo>>)
    requires |codes| == |infos|
    ensures |Kept(infos)| + |FailedCodes(codes, infos)| == |infos|
    ensures forall c :: c in FailedCodes(codes, infos) <==> exists i :: 0 <= i < |codes| && codes[i] == c && !Resolves(infos[i])
  {
    if codes != [] {
      var n := |codes| - 1;
      var initCodes, initInfos := codes[..n], infos[..n];
      LookupsPartition(initCodes, initInfos);
      forall c
        ensures c in FailedCodes(codes, infos) <==> exists i :: 0 <= i < |codes| && codes[i] == c && !Resolves(infos[i])
      {
        if c in FailedCodes(initCodes, initInfos) {
          var i :| 0 <= i < n && initCodes[i] == c && !Resolves(initInfos[i]);
          assert codes[i] == c && !Resolves(infos[i]);
        }
        if exists i :: 0 <= i < |codes| && codes[i] == c && !Resolves(infos[i]) {
          var i :| 0 <= i < |codes| && codes[i] == c && !Resolves(infos[i]);
          if i < n {
            assert initCodes[i] == c && !Resolves(initInfos[i]);
          }
        }
      }
    }
  }

  /** How many lookups a run makes before its flag is found down, if ever. */
  function LookupsMade(running: bool, count: nat, stopAt: nat): nat
  {
    if !running then 0 else if stopAt < count then stopAt else count
  }

  /**
   * How many rounds start when no post fails. Round `i` is preceded by flag
   * read number `firstRead + 2 * i` and starts when the stop request has not
   * yet landed by then; at most `repeat` rounds are run.
   */
  function RoundsStarted(running: bool, firstRead: nat, stopAt: nat, repeat: nat): nat
  {
    if !running || stopAt <= firstRead then 0
    else if (stopAt - firstRead + 1) / 2 < repeat then (stopAt - firstRead + 1) / 2
    else repeat
  }

  /** Round `i` starts exactly when the flag read before it comes before the stop. */
  lemma RoundsStartedMeaning(running: bool, firstRead: nat, stopAt: nat, repeat: nat, i: nat)
    requires i < repeat
    ensures i < RoundsStarted(running, firstRead, stopAt, repeat) <==> running && firstRead + 2 * i < stopAt
  {
  }

  /**
   * The pauses taken after the first `done` rounds. After round `i` the flag is
   * read (number `firstRead + 2 * i + 1`), and the worker pauses when it is
   * still up and round `i` is not the last of the `repeat`.
   */
  function PausesTaken(running: bool, firstRead: nat, stopAt: nat, done: nat, repeat: nat): nat
  {
    if done == 0 then 0
    else
      PausesTaken(running, firstRead, stopAt, done - 1, repeat) +
      (if running && done < repeat && firstRead + 2 * done - 1 < stopAt then 1 else 0)
  }

  function Min(a: int, b: int): int
  {
    if a < b then a else b
  }

  /**
   * The pauses in closed form: one after each completed round except the last
   * of the `repeat`, up to the last post-round read before the stop; none when
   * the stop lands before the first post-round read.
   */
  lemma {:induction false} PausesClosedForm(running: bool, firstRead: nat, stopAt: nat, done: nat, repeat: nat)
    ensures PausesTaken(running, firstRead, stopAt, done, repeat) ==
      if !running || stopAt <= firstRead || repeat == 0 then 0
      else Min(Min(done, repeat - 1), (stopAt - firstRead) / 2)
  {
    if done > 0 {
      PausesClosedForm(running, firstRead, stopAt, done - 1, repeat);
    }
  }

  /** How a run of the worker ends. */
  datatype Ending =
    | StoppedLookingUp        // the flag was down before a lookup
    | NothingResolved         // no lookup was kept: nothing is posted
    | GenerateFailed(index: nat)  // a kept reply lacked a field `course_addParam_generate` reads
    | StoppedBeforeRound      // the flag was down before a round
    | PostFailed              // a post raised inside `course_snatch`
    | Finished                // every round was run

  class SnatcherWorker {
    var headers: map<string, string>
    var studentCode: string
    var batchCode: string
    var codes: seq<string>
    var repeat: nat
    var isRunning: bool

    constructor(headers: map<string, string>, studentCode: string, batchCode: string, codes: seq<string>, repeat: nat)
      ensures this.headers == headers && this.studentCode == studentCode && this.batchCode == batchCode
      ensures this.codes == codes && this.repeat == repeat && isRunning
    {
      this.headers := headers;
      this.studentCode := studentCode;
      this.batchCode := batchCode;
      this.codes := codes;
      this.repeat := repeat;
      isRunning := true;
    }

    /** `stop`: lowers the running flag; nothing raises it again. */
    method Stop()
      modifies this`isRunning
      ensures !isRunning
    {
      isRunning := false;
    }

    /** Read number `index` of the running flag, with the stop request arriving just before read `stopAt`. */
    method ReadFlag(stopAt: nat, index: nat) returns (running: bool)
      modifies this`isRunning
      ensures isRunning == (old(isRunning) && index != stopAt)
      ensures running == isRunning
    {
      if index == stopAt {
        Stop();
      }
      running := isRunning;
    }

    /**
     * The lookup pass of `run`: the flag is read before each lookup, and the
     * pass stops at the first read that finds it down.
     */
    method LookUp(lookups: seq<Option<CourseInfo>>, stopAt: nat)
      returns (kept: seq<Option<CourseInfo>>, failedCodes: seq<string>, looked: nat, flagReads: nat)
      requires |lookups| == |codes|
      modifies this`isRunning
      ensures looked == LookupsMade(old(isRunning), |codes|, stopAt)
      ensures kept == Kept(lookups[..looked]) && failedCodes == FailedCodes(codes[..looked], lookups[..looked])
      ensures flagReads == if looked < |codes| then looked + 1 else |codes|
      ensures isRunning == (old(isRunning) && flagReads <= stopAt)
    {
      ghost var running0 := isRunning;
      kept, failedCodes, flagReads := [], [], 0;
      looked := 0;
      while looked < |codes|
        invariant looked <= |codes| && flagReads == looked
        invariant looked > 0 ==> running0 && looked <= stopAt
        invariant isRunning == (running0 && flagReads <= stopAt)
        invariant kept == Kept(lookups[..looked]) && failedCodes == FailedCodes(codes[..looked], lookups[..looked])
      {
        var running := ReadFlag(stopAt, flagReads);
        flagReads := flagReads + 1;
        if !running {
          return;
        }
        assert lookups[..looked + 1][..looked] == lookups[..looked] && codes[..looked + 1][..looked] == codes[..looked];
        var info := lookups[looked];
        if info.Some? && info.value.dataList.Some? && |info.value.dataList.value| > 0 {
          kept := kept + [info];
        } else {
          failedCodes := failedCodes + [codes[looked]];
        }
        looked := looked + 1;
      }
    }

    /**
     * The round loop of `run`: the flag is read before each round and after it
     * (to decide on the pause), never during one. The first read is number
     * `firstRead`.
     */
    method Rounds(payloads: seq<Form>, reply: (nat, nat) -> Reply, decode: string -> Option<Value>, stopAt: nat, firstRead: nat)
      returns (posted: seq<Form>, rounds: nat, sleeps: nat, ending: Ending, flagReads: nat)
      requires isRunning ==> firstRead <= stopAt
      modifies this`isRunning
      ensures isRunning == (old(isRunning) && flagReads <= stopAt)
      ensures flagReads + (if ending == PostFailed then 1 else 0) ==
        firstRead + 2 * rounds + (if ending == StoppedBeforeRound then 1 else 0)
      ensures ending == StoppedBeforeRound || ending == PostFailed || ending == Finished
      ensures rounds <= RoundsStarted(old(isRunning), firstRead, stopAt, repeat)
      ensures ending != PostFailed ==> rounds == RoundsStarted(old(isRunning), firstRead, stopAt, repeat)
      ensures ending != PostFailed ==> posted == Repeat(payloads, rounds)
      ensures ending == PostFailed ==> rounds > 0 && Repeat(payloads, rounds - 1) < posted <= Repeat(payloads, rounds)
      ensures ending == StoppedBeforeRound ==> rounds < repeat && !isRunning
      ensures ending == Finished ==> rounds == repeat
      ensures sleeps == PausesTaken(old(isRunning), firstRead, stopAt, if ending == PostFailed then rounds - 1 else rounds, repeat)
      ensures forall i :: 0 <= i < (if ending == PostFailed then rounds - 1 else rounds) ==> RoundOk(payloads, reply, decode, i)
      ensures ending == PostFailed ==> FirstFailure(reply, decode, rounds - 1, |posted| - |Repeat(payloads, rounds - 1)| - 1)
      ensures ending != PostFailed <==>
        forall i :: 0 <= i < RoundsStarted(old(isRunning), firstRead, stopAt, repeat) ==> RoundOk(payloads, reply, decode, i)
    {
      posted, rounds, sleeps, flagReads := [], 0, 0, firstRead;
      ending := Finished;
      ghost var running0 := isRunning;
      while rounds < repeat
        invariant rounds <= repeat && flagReads == firstRead + 2 * rounds
        invariant isRunning == (running0 && flagReads <= stopAt)
        invariant rounds > 0 ==> running0 && firstRead + 2 * (rounds - 1) < stopAt
        invariant posted == Repeat(payloads, rounds)
        invariant sleeps == PausesTaken(running0, firstRead, stopAt, rounds, repeat)
        invariant forall i :: 0 <= i < rounds ==> RoundOk(payloads, reply, decode, i)
      {
        var running := ReadFlag(stopAt, flagReads);
        flagReads := flagReads + 1;
        if !running {
          ending := StoppedBeforeRound;
          RoundsStartedMeaning(running0, firstRead, stopAt, repeat, rounds);
          if rounds > 0 {
            RoundsStartedMeaning(running0, firstRead, stopAt, repeat, rounds - 1);
          }
          return;
        }
        RoundsStartedMeaning(running0, firstRead, stopAt, repeat, rounds);
        var roundReply := (j: nat) => reply(rounds, j);
        var sent, shown, failed := CourseSnatch(payloads, roundReply, decode);
        forall j: nat | j <= |shown|
          ensures Shown(reply(rounds, j), decode) == Shown(roundReply(j), decode)
        {
        }
        posted := posted + sent;
        rounds := rounds + 1;
        if failed {
          assert !RoundOk(payloads, reply, decode, rounds - 1);
          ending := PostFailed;
          return;
        }
        assert RoundOk(payloads, reply, decode, rounds - 1);
        var stillRunning := ReadFlag(stopAt, flagReads);
        flagReads := flagReads + 1;
        if stillRunning && rounds - 1 < repeat - 1 {
          sleeps := sleeps + 1;
        }
      }
      if rounds > 0 {
        RoundsStartedMeaning(running0, firstRead, stopAt, repeat, rounds - 1);
      }
    }

    /**
     * `run`. `lookups[i]` is what `course_search` returns for `codes[i]`;
     * `reply(i, j)` is what the j-th post of round i gets back. `completed`
     * says whether the completion message is logged.
     */
    method Run(lookups: seq<Option<CourseInfo>>, reply: (nat, nat) -> Reply, decode: string -> Option<Value>, stopAt: nat)
      returns (kept: seq<Option<CourseInfo>>, failedCodes: seq<string>, payloads: seq<Form>, posted: seq<Form>,
               rounds: nat, sleeps: nat, ending: Ending, completed: bool, flagReads: nat)
      requires |lookups| == |codes|
      modifies this`isRunning
      ensures isRunning == (old(isRunning) && flagReads <= stopAt)
      ensures var looked := LookupsMade(old(isRunning), |codes|, stopAt);
        kept == Kept(lookups[..looked]) && failedCodes == FailedCodes(codes[..looked], lookups[..looked])
      ensures ending == StoppedLookingUp <==> LookupsMade(old(isRunning), |codes|, stopAt) < |codes|
      ensures ending == NothingResolved <==> LookupsMade(old(isRunning), |codes|, stopAt) == |codes| && kept == []
      ensures ending.GenerateFailed? ==> ending.index < |kept| && !Usable(kept[ending.index]) && payloads == []
      ensures ending.GenerateFailed? ==> forall i :: 0 <= i < ending.index ==> Usable(kept[i])
      ensures (LookupsMade(old(isRunning), |codes|, stopAt) == |codes| && kept != [] ==>
        (ending.GenerateFailed? <==> exists i :: 0 <= i < |kept| && !Usable(kept[i])))
      ensures payloads != [] ==> |payloads| == |kept|
      ensures ending == StoppedBeforeRound || ending == PostFailed || ending == Finished ==> payloads != []
      ensures payloads != [] ==> forall i :: 0 <= i < |kept| ==> Usable(kept[i]) && payloads[i] == PayloadFor(kept[i], studentCode, batchCode)
      ensures payloads == [] ==> rounds == 0 && posted == []
      ensures rounds <= RoundsStarted(old(isRunning), |codes|, stopAt, repeat)
      ensures payloads != [] && ending != PostFailed ==> rounds == RoundsStarted(old(isRunning), |codes|, stopAt, repeat)
      ensures ending != PostFailed ==> posted == Repeat(payloads, rounds)
      ensures ending == PostFailed ==> rounds > 0 && Repeat(payloads, rounds - 1) < posted <= Repeat(payloads, rounds)
      ensures ending == StoppedBeforeRound ==> rounds < repeat && !isRunning
      ensures ending == Finished ==> rounds == repeat
      ensures sleeps == PausesTaken(old(isRunning), |codes|, stopAt, if ending == PostFailed then rounds - 1 else rounds, repeat)
      ensures completed <==> ending == Finished && isRunning
      ensures completed <==> ending == Finished && old(isRunning) && |codes| + 2 * repeat < stopAt
      ensures forall i :: 0 <= i < (if ending == PostFailed then rounds - 1 else rounds) ==> RoundOk(payloads, reply, decode, i)
      ensures ending == PostFailed ==> FirstFailure(reply, decode, rounds - 1, |posted| - |Repeat(payloads, rounds - 1)| - 1)
      ensures (payloads != [] ==>
        (ending != PostFailed <==>
          forall i :: 0 <= i < RoundsStarted(old(isRunning), |codes|, stopAt, repeat) ==> RoundOk(payloads, reply, decode, i)))
    {
      payloads, posted, rounds, sleeps, completed := [], [], 0, 0, false;
      var looked;
      kept, failedCodes, looked, flagReads := LookUp(lookups, stopAt);
      if looked < |codes| {
        ending := StoppedLookingUp;
        return;
      }
      if kept == [] {
        ending := NothingResolved;
        return;
      }
      var generated := CourseAddParamGenerate(kept, studentCode, batchCode);
      if generated.Err? {
        ending := GenerateFailed(generated.error);
        return;
      }
      // The check of gui.py:112 never fires: one form is made per kept lookup.
      assert generated.value != [];
      // Every lookup was made, and some was kept, so the stop has not landed yet.
      assert isRunning == old(isRunning) && flagReads == |codes|;
      payloads := generated.value;
      posted, rounds, sleeps, ending, flagReads := Rounds(payloads, reply, decode, stopAt, flagReads);
      if ending == Finished {
        completed := ReadFlag(stopAt, flagReads);
        flagReads := flagReads + 1;
      }
    }
  }

  /**
   * A worker stopped just before its first round check (read number `|codes|`,
   * after one read per lookup) posts nothing and takes no pause.
   */
  method StopAtFirstRoundCheck(headers: map<string, string>, studentCode: string, batchCode: string, codes: seq<string>,
                               repeat: nat, lookups: seq<Option<CourseInfo>>, reply: (nat, nat) -> Reply,
                               decode: string -> Option<Value>)
    returns (posted: seq<Form>, sleeps: nat, completed: bool)
    requires |lookups| == |codes|
    ensures posted == [] && sleeps == 0 && !completed
  {
    var worker := new SnatcherWorker(headers, studentCode, batchCode, codes, repeat);
    var kept, failedCodes, payloads, rounds, ending, flagReads;
    kept, failedCodes, payloads, posted, rounds, sleeps, ending, completed, flagReads :=
      worker.Run(lookups, reply, decode, |codes|);
    PausesClosedForm(true, |codes|, |codes|, rounds, repeat);
  }

  /**
   * A worker that is never stopped, whose lookups all find a usable class and
   * whose posts are all answered with JSON, runs every round, posts every form
   * in every round and logs its completion.
   */
  method UninterruptedRunCompletes(headers: map<string, string>, studentCode: string, batchCode: string,
                                   codes: seq<string>, repeat: nat, lookups: seq<Option<CourseInfo>>,
                                   reply: (nat, nat) -> Reply, decode: string -> Option<Value>)
    returns (payloads: seq<Form>, posted: seq<Form>, completed: bool)
    requires |lookups| == |codes| && codes != []
    requires forall i :: 0 <= i < |lookups| ==> Usable(lookups[i])
    requires forall i: nat, j: nat :: Shown(reply(i, j), decode).Some?
    ensures |payloads| == |codes| && posted == Repeat(payloads, repeat) && completed
  {
    var worker := new SnatcherWorker(headers, studentCode, batchCode, codes, repeat);
    var stopAt := |codes| + 2 * repeat + 1;
    KeptAll(lookups);
    assert lookups[..|codes|] == lookups;
    var kept, failedCodes, rounds, sleeps, ending, flagReads;
    kept, failedCodes, payloads, posted, rounds, sleeps, ending, completed, flagReads :=
      worker.Run(lookups, reply, decode, stopAt);
    assert kept == lookups;
    assert !ending.GenerateFailed?;
    assert RoundsStarted(true, |codes|, stopAt, repeat) == repeat;
    assert ending != PostFailed;
  }
}
