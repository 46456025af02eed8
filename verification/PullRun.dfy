/** A whole pull: the SIZE request, the GET requests over an unreliable channel, and the appends. */
module PullRun {
  import opened Options
  import opened Bytes
  import opened Pull
  import opened FatFormat
  import opened FatNames
  import opened FatChains
  import opened FatSteps
  import opened FatVolume

  /** `Overrun`: the client has started to copy billions of bytes onto its stage, and nothing is promised
      any more. */
  datatype Outcome = SizeTimedOut | NotCreated | TimedOut | Mismatch | Overrun | WriteFailed | Saved

  /** Twelve chunks: what the stage holds when it is written out. */
  const FULL_STAGE: nat := 17160

  /** What the channel brings in answer to the GETs, one item per request: nothing in time, or some reply
      of this server for this file, be it late or repeated. */
  ghost predicate ChannelOk(channel: seq<Option<Delivery>>) {
    forall i :: 0 <= i < |channel| && channel[i].Some? ==> Fair(channel[i].value)
  }

  /** Each GET of a run for `total` bytes gets its own reply in time. */
  ghost predicate AllRight(channel: seq<Option<Delivery>>, file: seq<byte>, total: nat) {
    forall i: nat :: CHUNK_SIZE * i < |file| && CHUNK_SIZE * i < total ==>
                       i < |channel| && channel[i].Some? && channel[i].value.req == Get(CHUNK_SIZE * i)
  }

  function RoundUp(total: nat): nat {
    (total + CHUNK_SIZE - 1) / CHUNK_SIZE * CHUNK_SIZE
  }

  /** How much of a file of `size` bytes a complete run for `total` bytes brings: whole chunks. */
  function Goal(size: nat, total: nat): nat {
    if RoundUp(total) < size then RoundUp(total) else size
  }

  /** The local file is `content`, every other file as in `was`; a hidden name makes no file at all. */
  ghost predicate Local(vol: Volume, was: map<RawName, seq<byte>>, name: CName, content: seq<byte>)
    reads vol
  {
    vol.Valid() && vol.st.files == FilesWith(was, Encoded(name), content)
  }

  function FilesWith(was: map<RawName, seq<byte>>, name: RawName, content: seq<byte>): map<RawName, seq<byte>> {
    if Hidden(name) then was else was[name := content]
  }

  /** What an outcome says: a complete run has reached its goal, and its stage stayed within the array
      exactly if that is no more than the array holds; only a size beyond the file makes it overrun, and
      only a run that fetched something can fail to write. */
  ghost predicate Ends(outcome: Outcome, size: nat, total: nat, saved: nat, peak: nat) {
    && (outcome == Saved ==>
        total <= size && saved == Goal(size, total) && (peak <= STAGE_SIZE <==> saved <= STAGE_SIZE))
    && (outcome == Overrun ==> size < total)
    && (outcome == WriteFailed ==> 0 < total)
  }

  datatype Reading = Other | Data(chunk: seq<byte>) | Endless

  /** What one reply means: it is the one asked for exactly when its offset is, and then its data are the
      next chunk. Behind the end of the file it brings no data, and is taken for an endless amount. */
  method Fetch(file: seq<byte>, d: Delivery, off: nat) returns (r: Reading)
    requires Fair(d) && off <= |file| < 0x1_0000_0000
    ensures off < |file| ==> r == if d.req == Get(off) then Data(Chunk(file, off)) else Other
    ensures off == |file| ==> r == if FirstNumber(file, d.req) == off then Endless else Other
  {
    hide Answer, Chunk;
    AnswerFits(file, d.req);
    AnswerInBuffer(file, d);
    var buf, len := Buffer(file, d), |Answer(file, d.req)|;
    var ok, rOff, avail, start := ReadGet(buf, len, file, d);
    if rOff != off {
      return Other;
    }
    if avail > MAX_REPLY {
      return Endless;
    }
    r := Data(buf[start..start + avail]);
  }

  lemma LocalIs(vol: Volume, was: map<RawName, seq<byte>>, name: CName, content: seq<byte>)
    ensures Local(vol, was, name, content) <==> vol.Valid() && vol.st.files == FilesWith(was, Encoded(name), content)
  {
    hide Encoded, Volume.Valid;
  }

  /** The local file can take more, as far as 32 bits go. */
  lemma LocalRoom(vol: Volume, was: map<RawName, seq<byte>>, name: CName, content: seq<byte>, n: nat)
    requires Local(vol, was, name, content) && |content| + n < 0x1_0000_0000
    ensures vol.Valid() && (Encoded(name) in vol.st.files ==> |vol.st.files[Encoded(name)]| + n < 0x1_0000_0000)
    ensures Hidden(Encoded(name)) <==> Encoded(name) !in vol.st.files
  {
    HiddenFresh(vol.st, vol.geo.ClusterSize(), Encoded(name));
    hide Encoded, Good, Volume.Rep;
  }

  lemma LocalAgain(vol: Volume, was: map<RawName, seq<byte>>, files: map<RawName, seq<byte>>, name: RawName,
                   before: seq<byte>, more: seq<byte>)
    requires files == FilesWith(was, name, before) && (Hidden(name) <==> name !in files)
    requires vol.st.files == if Hidden(name) then files else files[name := files[name] + more]
    ensures vol.st.files == FilesWith(was, name, before + more)
  {
    hide Hidden;
  }

  method StageOut(vol: Volume, local: CName, stage: seq<byte>, ghost was: map<RawName, seq<byte>>,
                  ghost file: seq<byte>,
      ghost saved: nat)
    returns (ok: bool)
    requires saved + |stage| <= |file| < 0x1_0000_0000 && stage == file[saved..saved + |stage|]
    requires Local(vol, was, local, file[..saved])
    modifies vol
    ensures Local(vol, was, local, file[..if ok then saved + |stage| else saved])
  {
    hide *;
    LocalIs(vol, was, local, file[..saved]);
    LocalRoom(vol, was, local, file[..saved], |stage|);
    ghost var slot, orphaned, files;
    files := vol.st.files;
    ok, slot, orphaned := vol.Append(local, stage);
    assert file[..saved] + stage == file[..saved + |stage|];
    if ok { LocalAgain(vol, was, files, Encoded(local), file[..saved], stage); }
    LocalIs(vol, was, local, file[..if ok then saved + |stage| else saved]);
  }

  /**
   cmd_pullhostfile. At every step the appended bytes and the staged ones are the server's file up to the
   offset reached, so whatever becomes of the run, the local file is a prefix of it. A run that reports
   "Saved" has fetched whole chunks for as many bytes as the reply to SIZE was taken to say; so it has all
   of the file exactly when that, rounded up to chunks, is not less than the file. A reply taken for more
   than the file makes the client run over the end.
   */
  method PullHostFile(vol: Volume, local: CName, file: seq<byte>, sizeReply: Option<Delivery>,
                      channel: seq<Option<Delivery>>)
    returns (outcome: Outcome, ghost saved: nat, ghost peak: nat)
    requires vol.Valid() && |file| < 0x1_0000_0000 && ChannelOk(channel) && (sizeReply.Some? ==> Fair(sizeReply.value))
    requires Encoded(local) !in vol.st.files
    modifies vol
    ensures outcome == SizeTimedOut <==> sizeReply.None?
    ensures outcome == NotCreated <==> sizeReply.Some? && !SlotLeft(old(vol.st.dir))
    ensures saved <= |file|
    ensures outcome == SizeTimedOut || outcome == NotCreated ==> vol.Valid() && vol.st.files == old(vol.st.files)
    ensures outcome != SizeTimedOut && outcome != NotCreated ==> Local(vol, old(vol.st.files), local, file[..saved])
    ensures sizeReply.Some? ==> Ends(outcome, |file|, FirstNumber(file, sizeReply.value.req), saved, peak)
    ensures outcome == Saved ==> (saved == |file| <==> |file| <= RoundUp(FirstNumber(file, sizeReply.value.req)))
    ensures sizeReply.Some? && FirstNumber(file, sizeReply.value.req) <= |file|
            && AllRight(channel, file, FirstNumber(file, sizeReply.value.req)) ==>
              outcome == NotCreated || outcome == WriteFailed || outcome == Saved
  {
    hide Hidden, Encoded, SlotLeft, UniqueNames, Slots, Gather, Volume.Valid, Volume.Rep, AllRight, Goal, RoundUp;
    hide FirstNumber, Local;
    saved, peak := 0, 0;
    if sizeReply == None {
      return SizeTimedOut, 0, 0;
    }
    var total := ReadSize(file, sizeReply.value);
    ghost var was := vol.st.files;
    var ok := vol.Create(local, []);
    if !ok {
      return NotCreated, 0, 0;
    }
    LocalStart(vol, was, local);
    assert file[..0] == [];
    outcome, saved, peak := PullChunks(vol, local, file, total, channel, was);
    GoalWhole(|file|, total);
  }

  lemma LocalStart(vol: Volume, was: map<RawName, seq<byte>>, local: CName)
    requires vol.Valid() && vol.st.files == if Hidden(Encoded(local)) then was else was[Encoded(local) := []]
    ensures Local(vol, was, local, [])
  {
    hide Encoded, Hidden, Volume.Valid;
  }

  lemma GoalWhole(size: nat, total: nat)
    ensures Goal(size, total) == size <==> size <= RoundUp(total)
  {
    hide RoundUp;
  }

  /** What is left on the stage when the loop is over. */
  method LastStage(vol: Volume, local: CName, stage: seq<byte>, ghost was: map<RawName, seq<byte>>,
                   ghost file: seq<byte>,
      ghost saved0: nat)
    returns (outcome: Outcome, ghost saved: nat)
    requires saved0 + |stage| <= |file| < 0x1_0000_0000 && stage == file[saved0..saved0 + |stage|]
    requires Local(vol, was, local, file[..saved0])
    modifies vol
    ensures (outcome == WriteFailed && stage != []) || (outcome == Saved && saved == saved0 + |stage|)
    ensures saved <= |file| && Local(vol, was, local, file[..saved])
  {
    hide Hidden, Encoded, Local;
    saved := saved0;
    if |stage| > 0 {
      var ok := StageOut(vol, local, stage, was, file, saved);
      if !ok {
        return WriteFailed, saved;
      }
      saved := saved + |stage|;
    }
    outcome := Saved;
  }

  /** The size the client takes from the reply to its SIZE request. */
  method ReadSize(file: seq<byte>, d: Delivery) returns (total: nat)
    requires Fair(d) && |file| < 0x1_0000_0000
    ensures total == FirstNumber(file, d.req)
  {
    hide Answer;
    FirstFieldReads(file, d);
    var p;
    total, p := ReadField(Buffer(file, d), 2);
  }

  /** The numbers that go with the offset: how much is staged and how much was staged at most. */
  ghost predicate Progress(size: nat, off: nat, saved: nat, staged: nat, peak: nat, i: nat) {
    && saved + staged == off <= size
    && peak == (if off < FULL_STAGE then off else FULL_STAGE)
    && (off < size ==> off == CHUNK_SIZE * i && staged == off % FULL_STAGE)
  }

  lemma ProgressStep(size: nat, off: nat, saved: nat, staged: nat, peak: nat, i: nat, n: nat)
    requires Progress(size, off, saved, staged, peak, i) && off < size
    requires n == if off + CHUNK_SIZE < size then CHUNK_SIZE else size - off
    ensures var s, off' := staged + n, off + n;
            var peak' := if s > peak then s else peak;
            if s >= STAGE_SIZE then Progress(size, off', saved + s, 0, peak', i + 1)
            else Progress(size, off', saved, s, peak', i + 1)
  {
    assert off % CHUNK_SIZE == 0;
    assert off == off / FULL_STAGE * FULL_STAGE + staged;
    assert staged % CHUNK_SIZE == 0;
    assert staged <= FULL_STAGE - CHUNK_SIZE;
    if n == CHUNK_SIZE {
      assert (off + n) % FULL_STAGE == if staged + n == FULL_STAGE then 0 else staged + n;
    }
  }

  /** A step of the loop stays within the goal and brings what is left of it up to a chunk. */
  lemma GoalStep(size: nat, total: nat, off: nat, i: nat)
    requires off < size && off < total && off == CHUNK_SIZE * i
    ensures var goal := Goal(size, total);
            && off < goal
            && (if off + CHUNK_SIZE < size then CHUNK_SIZE else size - off)
               == (if off + CHUNK_SIZE < goal then CHUNK_SIZE else goal - off)
  {
  }

  /** Past `total`, or at the end of the file, the goal is reached. */
  lemma GoalEnd(size: nat, total: nat, off: nat, i: nat)
    requires off <= Goal(size, total) && (total <= off || off == size)
    requires off < Goal(size, total) ==> off == CHUNK_SIZE * i
    ensures off == Goal(size, total)
  {
  }

  lemma GoalSmall(size: nat, total: nat)
    ensures total == 0 ==> Goal(size, total) == 0
  {
  }

  lemma GoalFits(size: nat, total: nat)
    ensures Goal(size, total) <= size
  {
  }

  /** A chunk goes onto the stage, and a full stage to the file. */
  method Place(vol: Volume, local: CName, stage0: seq<byte>, data: seq<byte>, ghost was: map<RawName, seq<byte>>,
      ghost file: seq<byte>, ghost off: nat, ghost goal: nat, ghost saved0: nat, ghost peak0: nat, ghost i: nat)
    returns (ok: bool, stage: seq<byte>, ghost saved: nat, ghost peak: nat)
    requires saved0 + |stage0| == off < goal <= |file| < 0x1_0000_0000 && stage0 == file[saved0..off]
    requires |data| == (if off + CHUNK_SIZE < goal then CHUNK_SIZE else goal - off) && data == file[off..off + |data|]
    requires Local(vol, was, local, file[..saved0]) && Progress(goal, off, saved0, |stage0|, peak0, i)
    modifies vol
    ensures saved <= |file| && Local(vol, was, local, file[..saved])
    ensures ok ==>
      && saved + |stage| == off + |data| <= goal && stage == file[saved..off + |data|]
      && Progress(goal, off + |data|, saved, |stage|, peak, i + 1)
  {
    hide *;
    ProgressStep(goal, off, saved0, |stage0|, peak0, i, |data|);
    SliceConcat(file, saved0, |stage0|, |data|);
    ok, stage, saved := true, stage0 + data, saved0;
    peak := if |stage| > peak0 then |stage| else peak0;
    if |stage| >= STAGE_SIZE {
      ok := StageOut(vol, local, stage, was, file, saved);
      if ok {
        saved, stage := off + |data|, [];
      }
    }
  }

  method PullChunks(vol: Volume, local: CName, file: seq<byte>, total: nat, channel: seq<Option<Delivery>>,
      ghost was: map<RawName, seq<byte>>)
    returns (outcome: Outcome, ghost saved: nat, ghost peak: nat)
    requires |file| < 0x1_0000_0000 && ChannelOk(channel) && Local(vol, was, local, [])
    modifies vol
    ensures saved <= |file| && Local(vol, was, local, file[..saved])
    ensures outcome != SizeTimedOut && outcome != NotCreated && Ends(outcome, |file|, total, saved, peak)
    ensures AllRight(channel, file, total) && total <= |file| ==> outcome == WriteFailed || outcome == Saved
  {
    hide *;
    saved, peak := 0, 0;
    var off, i := 0, 0;
    var stage: seq<byte> := [];
    assert file[..0] == [];
    ghost var goal := Goal(|file|, total);
    GoalFits(|file|, total);
    ProgressStart(goal);
    while off < total
      invariant saved + |stage| == off <= goal <= |file| && stage == file[saved..off]
      invariant Local(vol, was, local, file[..saved])
      invariant Progress(goal, off, saved, |stage|, peak, i)
      decreases |file| - off
    {
      ProgressPlace(goal, off, saved, |stage|, peak, i);
      GoalEndAt(|file|, total, off, i);
      NextOffset(channel, file, total, off, i);
      if i >= |channel| || channel[i] == None {
        EndsEarly(TimedOut, |file|, total, saved, peak);
        return TimedOut, saved, peak;
      }
      ChannelFair(channel, i);
      var reading := Fetch(file, channel[i].value, off);
      if reading == Other {
        EndsEarly(Mismatch, |file|, total, saved, peak);
        return Mismatch, saved, peak;
      }
      if reading == Endless {
        EndsEarly(Overrun, |file|, total, saved, peak);
        return Overrun, saved, peak;
      }
      var data, ok := reading.chunk, false;
      ChunkIs(file, off);
      GoalStep(|file|, total, off, i);
      ok, stage, saved, peak := Place(vol, local, stage, data, was, file, off, goal, saved, peak, i);
      if !ok {
        EndsEarly(WriteFailed, |file|, total, saved, peak);
        return WriteFailed, saved, peak;
      }
      off, i := off + |data|, i + 1;
    }
    ProgressPlace(goal, off, saved, |stage|, peak, i);
    GoalSmall(|file|, total);
    GoalEnd(|file|, total, off, i);
    ProgressEnd(goal, off, saved, |stage|, peak, i);
    outcome, saved := LastStage(vol, local, stage, was, file, saved);
    EndsLate(outcome, |file|, total, off, saved, peak);
  }

  lemma EndsEarly(outcome: Outcome, size: nat, total: nat, saved: nat, peak: nat)
    requires outcome != Saved && (outcome == Overrun ==> size < total) && (outcome == WriteFailed ==> 0 < total)
    ensures Ends(outcome, size, total, saved, peak)
  {
  }

  lemma EndsLate(outcome: Outcome, size: nat, total: nat, off: nat, saved: nat, peak: nat)
    requires outcome == Saved || (outcome == WriteFailed && 0 < off)
    requires total <= off == Goal(size, total) && (outcome == Saved ==> saved == off)
    requires off == 0 || 0 < total
    requires peak <= STAGE_SIZE <==> off <= STAGE_SIZE
    ensures Ends(outcome, size, total, saved, peak)
  {
    GoalFits(size, total);
    hide Goal;
  }

  lemma ProgressPlace(size: nat, off: nat, saved: nat, staged: nat, peak: nat, i: nat)
    requires Progress(size, off, saved, staged, peak, i)
    ensures off < size ==> off == CHUNK_SIZE * i
  {
  }

  /** Inside the loop the offset is that of a chunk, or the end of the file. */
  lemma GoalEndAt(size: nat, total: nat, off: nat, i: nat)
    requires off <= Goal(size, total) && off < total && (off < Goal(size, total) ==> off == CHUNK_SIZE * i)
    ensures off < size ==> off == CHUNK_SIZE * i
  {
  }

  lemma ProgressStart(size: nat)
    ensures Progress(size, 0, 0, 0, 0, 0)
  {
  }

  lemma ProgressEnd(size: nat, off: nat, saved: nat, staged: nat, peak: nat, i: nat)
    requires Progress(size, off, saved, staged, peak, i) && off == size
    ensures peak <= STAGE_SIZE <==> size <= STAGE_SIZE
  {
  }

  lemma NextOffset(channel: seq<Option<Delivery>>, file: seq<byte>, total: nat, off: nat, i: nat)
    requires off < total && (off < |file| ==> off == CHUNK_SIZE * i)
    ensures AllRight(channel, file, total) && off < |file| ==>
              i < |channel| && channel[i].Some? && channel[i].value.req == Get(off)
  {
  }

  lemma ChannelFair(channel: seq<Option<Delivery>>, i: nat)
    requires ChannelOk(channel) && i < |channel| && channel[i].Some?
    ensures Fair(channel[i].value)
  {
  }

  lemma ChunkIs(file: seq<byte>, off: nat)
    requires off < |file|
    ensures var n := if off + CHUNK_SIZE < |file| then CHUNK_SIZE else |file| - off;
            Chunk(file, off) == file[off..off + n]
  {
  }

  /** A reply to the first GET of an earlier pull of the file, arriving in answer to SIZE, is taken for a
      file of no bytes: the pull reports "Saved" and leaves an empty file. */
  method LeftoverEmpties(vol: Volume, local: CName, file: seq<byte>, stale: seq<byte>) returns (outcome: Outcome)
    requires vol.Valid() && 0 < |file| < 0x1_0000_0000 && SlotLeft(vol.st.dir)
    requires Encoded(local) !in vol.st.files && !Hidden(Encoded(local))
    modifies vol
    ensures outcome == Saved && vol.Valid() && vol.st.files == old(vol.st.files)[Encoded(local) := []]
  {
    hide Encoded, SlotLeft, Volume.Valid, Volume.Rep, UniqueNames, Slots, Gather;
    assert AllRight([], file, 0);
    assert Goal(|file|, 0) == 0;
    ghost var saved, peak;
    outcome, saved, peak := PullHostFile(vol, local, file, Some(Delivery(Get(0), stale)), []);
    assert file[..0] == [];
  }
}
