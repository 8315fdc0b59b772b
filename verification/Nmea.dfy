/** The NMEA callback: sentences are gathered in a send buffer, and a GPGGA sentence
    sends the batch off in one datagram. */
module Nmea {
  const BUFFER_SIZE := 1024

  /** `strstr(text, needle) != NULL`. */
  predicate Contains(text: string, needle: string) {
    needle <= text || (text != "" && Contains(text[1..], needle))
  }

  predicate IsGps(nmea: string) {
    Contains(nmea, "$GP")
  }

  predicate IsFix(nmea: string) {
    Contains(nmea, "GPGGA")
  }

  /** `Contains` is what its name says: the needle occurs somewhere in the text. */
  lemma {:induction false} ContainsIff(text: string, needle: string)
    ensures Contains(text, needle) <==> exists before, after :: text == before + needle + after
  {
    if needle <= text {
      assert text == "" + needle + text[|needle|..];
    } else if text == "" {
    } else {
      ContainsIff(text[1..], needle);
      if before, after :| text[1..] == before + needle + after {
        assert text == ([text[0]] + before) + needle + after;
      }
      if before, after :| text == before + needle + after {
        assert before == "" ==> needle <= text;
        assert text[1..] == before[1..] + needle + after;
      }
    }
  }

  /** The callback's two tests: a GPS sentence has `$GP` in it, and a fix `GPGGA`. */
  lemma TestsAre(nmea: string)
    ensures IsGps(nmea) <==> exists before, after :: nmea == before + "$GP" + after
    ensures IsFix(nmea) <==> exists before, after :: nmea == before + "GPGGA" + after
  {
    hide Contains;
    ContainsIff(nmea, "$GP");
    ContainsIff(nmea, "GPGGA");
  }

  // ---------------------------------------------------------------- the callback

  /** The two statics of the callback, and the datagrams handed to the broadcast. */
  datatype State = State(sendBuff: string, sendToSize: nat, outbox: seq<string>)

  const INITIAL := State("", 0, [])

  ghost predicate Good(s: State) {
    |s.sendBuff| == s.sendToSize
  }

  /** One call, with `length` as passed by the caller and the text's own length used
      by the formatting. */
  function Call(s: State, nmea: string, length: int): State
    requires Good(s)
    ensures Good(Call(s, nmea, length))
  {
    if !IsGps(nmea) then s else
      var s1 := if s.sendToSize + length > BUFFER_SIZE then s.(sendBuff := "", sendToSize := 0) else s;
      var buff := s1.sendBuff + nmea + "\r";
      if IsFix(nmea) then
        State("", 0, s1.outbox + [buff])
      else
        State(buff, |buff|, s1.outbox)
  }

  /** A GPGGA sentence that finds room sends off everything pending and itself, a carriage
      return behind it, and leaves the buffer empty. */
  lemma FixIsSent(s: State, talker: string, fields: string, length: int)
    requires Good(s) && s.sendToSize + length <= 1024
    ensures var nmea := talker + "$GPGGA," + fields;
      Call(s, nmea, length) == State("", 0, s.outbox + [s.sendBuff + nmea + "\r"])
  {
    hide Contains;
    var nmea := talker + "$GPGGA," + fields;
    TestsAre(nmea);
    assert nmea == talker + "$GP" + ("GGA," + fields);
    assert nmea == (talker + "$") + "GPGGA" + ("," + fields);
  }

  class Callback {
    var sendBuff: string
    var sendToSize: nat
    var outbox: seq<string>

    ghost function Contents(): State
      reads this
    {
      State(sendBuff, sendToSize, outbox)
    }

    constructor ()
      ensures Contents() == INITIAL
    {
      sendBuff, sendToSize, outbox := "", 0, [];
    }

    method OnNmea(nmea: string, length: int)
      requires Good(Contents())
      modifies this
      ensures Contents() == Call(old(Contents()), nmea, length)
    {
      hide Contains;
      if !IsGps(nmea) {
        return;
      }
      if sendToSize + length > BUFFER_SIZE {
        sendToSize := 0;
        sendBuff := "";
      }
      var printed := nmea + "\r";
      assert sendBuff[..sendToSize] == sendBuff;
      assert sendBuff + printed == sendBuff + nmea + "\r";
      sendBuff := sendBuff[..sendToSize] + printed;
      sendToSize := sendToSize + |printed|;
      if IsFix(nmea) {
        assert sendBuff[..sendToSize] == sendBuff;
        outbox := outbox + [sendBuff[..sendToSize]];
        sendToSize := 0;
        sendBuff := "";
      }
    }
  }

  // ---------------------------------------------------------------- whole runs

  datatype Input = Input(nmea: string, length: int)

  function Run(calls: seq<Input>): (s: State)
    ensures Good(s)
  {
    if calls == [] then INITIAL else
      var last := calls[|calls| - 1];
      Call(Run(calls[..|calls| - 1]), last.nmea, last.length)
  }

  /** The sentences the callback takes, in order of arrival. */
  function Accepted(calls: seq<Input>): seq<string> {
    if calls == [] then [] else
      var last := calls[|calls| - 1].nmea;
      Accepted(calls[..|calls| - 1]) + if IsGps(last) then [last] else []
  }

  datatype Batch = Sent(sentences: seq<string>) | Dropped(sentences: seq<string>)

  /** Each sentence followed by a carriage return. */
  function Render(sentences: seq<string>): string {
    if sentences == [] then "" else
      Render(sentences[..|sentences| - 1]) + sentences[|sentences| - 1] + "\r"
  }

  function Datagrams(batches: seq<Batch>): seq<string> {
    if batches == [] then [] else
      var last := batches[|batches| - 1];
      Datagrams(batches[..|batches| - 1]) + if last.Sent? then [Render(last.sentences)] else []
  }

  function Sentences(batches: seq<Batch>): seq<string> {
    if batches == [] then [] else
      Sentences(batches[..|batches| - 1]) + batches[|batches| - 1].sentences
  }

  ghost predicate NoFix(sentences: seq<string>) {
    forall i | 0 <= i < |sentences| :: !IsFix(sentences[i])
  }

  /** A batch that was sent has one fix sentence, its last; a dropped one has none. */
  ghost predicate Proper(b: Batch) {
    match b
    case Sent(ss) => ss != [] && IsFix(ss[|ss| - 1]) && NoFix(ss[..|ss| - 1])
    case Dropped(ss) => NoFix(ss)
  }

  /** `batches` and `pending` explain a state: every accepted sentence is in exactly
      one place, in order, and the datagrams are the sent batches. */
  ghost predicate Explains(batches: seq<Batch>, pending: seq<string>, accepted: seq<string>, s: State) {
    && Good(s)
    && Sentences(batches) + pending == accepted
    && Datagrams(batches) == s.outbox
    && Render(pending) == s.sendBuff
    && NoFix(pending)
    && (forall i | 0 <= i < |batches| :: Proper(batches[i]))
  }

  lemma BatchAppended(batches: seq<Batch>, b: Batch)
    ensures Sentences(batches + [b]) == Sentences(batches) + b.sentences
    ensures Datagrams(batches + [b]) == Datagrams(batches) + if b.Sent? then [Render(b.sentences)] else []
  {
    assert (batches + [b])[..|batches|] == batches;
  }

  lemma SentenceAppended(pending: seq<string>, nmea: string)
    ensures Render(pending + [nmea]) == Render(pending) + nmea + "\r"
  {
    assert (pending + [nmea])[..|pending|] == pending;
  }

  lemma Overflow(batches: seq<Batch>, pending: seq<string>, accepted: seq<string>, s: State)
    requires Explains(batches, pending, accepted, s)
    ensures Explains(batches + [Dropped(pending)], [], accepted, s.(sendBuff := "", sendToSize := 0))
  {
    BatchAppended(batches, Dropped(pending));
  }

  lemma Gathered(batches: seq<Batch>, pending: seq<string>, accepted: seq<string>, s: State, nmea: string)
    requires Explains(batches, pending, accepted, s) && !IsFix(nmea)
    ensures var buff := s.sendBuff + nmea + "\r";
      Explains(batches, pending + [nmea], accepted + [nmea], State(buff, |buff|, s.outbox))
  {
    SentenceAppended(pending, nmea);
    assert Sentences(batches) + (pending + [nmea]) == accepted + [nmea];
  }

  lemma Broadcast(batches: seq<Batch>, pending: seq<string>, accepted: seq<string>, s: State, nmea: string)
    requires Explains(batches, pending, accepted, s) && IsFix(nmea)
    ensures Explains(batches + [Sent(pending + [nmea])], [], accepted + [nmea],
                     State("", 0, s.outbox + [s.sendBuff + nmea + "\r"]))
  {
    SentenceAppended(pending, nmea);
    BatchAppended(batches, Sent(pending + [nmea]));
    assert Sentences(batches) + (pending + [nmea]) == accepted + [nmea];
    assert Proper(Sent(pending + [nmea])) by {
      assert (pending + [nmea])[..|pending|] == pending;
    }
  }

  // -------------------------------------------------- where every sentence goes

  /** A record of the batches so far and of the sentences pending. */
  datatype Journal = Journal(batches: seq<Batch>, pending: seq<string>)

  /** An accepted call that finds a batch pending and too little room drops that batch,
      whole. Its own sentence is added to what is then pending, and a fix sends that off. */
  function Record(j: Journal, nmea: string, length: int): Journal {
    if !IsGps(nmea) then j else
      var j1 := if j.pending != [] && |Render(j.pending)| + length > BUFFER_SIZE
        then Journal(j.batches + [Dropped(j.pending)], []) else j;
      if IsFix(nmea) then Journal(j1.batches + [Sent(j1.pending + [nmea])], [])
      else Journal(j1.batches, j1.pending + [nmea])
  }

  function JournalOf(calls: seq<Input>): Journal {
    if calls == [] then Journal([], []) else
      var last := calls[|calls| - 1];
      Record(JournalOf(calls[..|calls| - 1]), last.nmea, last.length)
  }

  lemma CallRecorded(j: Journal, accepted: seq<string>, s: State, nmea: string, length: int)
    requires Explains(j.batches, j.pending, accepted, s)
    ensures var j' := Record(j, nmea, length);
      Explains(j'.batches, j'.pending, if IsGps(nmea) then accepted + [nmea] else accepted, Call(s, nmea, length))
  {
    hide Contains, Sentences, Datagrams;
    if IsGps(nmea) {
      var bs, ps, t := j.batches, j.pending, s;
      if s.sendToSize + length > BUFFER_SIZE {
        t := s.(sendBuff := "", sendToSize := 0);
        if ps != [] {
          Overflow(bs, ps, accepted, s);
          bs, ps := bs + [Dropped(ps)], [];
        }
      }
      assert Explains(bs, ps, accepted, t);
      if IsFix(nmea) {
        Broadcast(bs, ps, accepted, t, nmea);
      } else {
        Gathered(bs, ps, accepted, t, nmea);
      }
    }
  }

  /** No sentence is lost, duplicated or reordered by any run of calls, but for the batches
      that the journal names: the accepted sentences are those of its sent and dropped
      batches in order, and then the pending ones, and the datagrams and the buffer are
      these batches and the pending sentences, rendered. */
  lemma {:induction false} Conservation(calls: seq<Input>)
    ensures var j := JournalOf(calls); Explains(j.batches, j.pending, Accepted(calls), Run(calls))
  {
    hide Contains, Explains, Record, Call;
    if calls == [] {
      NothingExplained();
    } else {
      var front, last := calls[..|calls| - 1], calls[|calls| - 1];
      Conservation(front);
      CallRecorded(JournalOf(front), Accepted(front), Run(front), last.nmea, last.length);
      assert Accepted(front) + [] == Accepted(front);
    }
  }

  lemma NothingExplained()
    ensures Explains([], [], [], INITIAL)
  {
  }

  /** What the overflow test keeps: with true lengths, and no sentence longer than the
      buffer size, the buffer and every datagram stay within that size and the one
      carriage return that the test does not count. */
  lemma {:induction false} SizeBounded(calls: seq<Input>)
    requires forall c | c in calls :: c.length == |c.nmea| <= 1024
    ensures Run(calls).sendToSize <= 1025
    ensures forall d | d in Run(calls).outbox :: |d| <= 1025
  {
    hide Contains;
    if calls == [] {
    } else {
      var n := |calls| - 1;
      assert calls[n] in calls && forall c | c in calls[..n] :: c in calls;
      SizeBounded(calls[..n]);
    }
  }

  /** No accepted call found something pending and too little room for more. */
  predicate DropsNothing(calls: seq<Input>) {
    calls == [] ||
    var front, last := calls[..|calls| - 1], calls[|calls| - 1];
    && DropsNothing(front)
    && (IsGps(last.nmea) && Run(front).sendToSize > 0 ==> Run(front).sendToSize + last.length <= BUFFER_SIZE)
  }

  /** What the datagrams and the pending buffer hold together. */
  function Delivered(s: State): string {
    Flatten(s.outbox) + s.sendBuff
  }

  lemma CallDelivers(s: State, nmea: string, length: int)
    requires Good(s) && IsGps(nmea)
    ensures var s', lost := Call(s, nmea, length), s.sendToSize + length > BUFFER_SIZE;
      Delivered(s') == (if lost then Flatten(s.outbox) else Delivered(s)) + nmea + "\r"
  {
    hide Contains;
    var base := if s.sendToSize + length > BUFFER_SIZE then "" else s.sendBuff;
    var buff := base + nmea + "\r";
    FlattenAppended(s.outbox, buff);
    assert Flatten(s.outbox) + buff == Flatten(s.outbox) + base + nmea + "\r";
    assert Flatten(s.outbox) + "" == Flatten(s.outbox);
  }

  /** Every accepted sentence is in a datagram or in the buffer if and only if no call
      dropped a batch. */
  lemma {:induction false} AllDeliveredIff(calls: seq<Input>)
    ensures Delivered(Run(calls)) == Render(Accepted(calls)) <==> DropsNothing(calls)
    ensures |Delivered(Run(calls))| <= |Render(Accepted(calls))|
    ensures |Delivered(Run(calls))| == |Render(Accepted(calls))| ==> DropsNothing(calls)
  {
    hide Contains, Call, Delivered;
    if calls == [] {
      NothingYet();
    } else {
      var front, last := calls[..|calls| - 1], calls[|calls| - 1];
      AllDeliveredIff(front);
      if IsGps(last.nmea) {
        CallDelivers(Run(front), last.nmea, last.length);
        SentenceAppended(Accepted(front), last.nmea);
        DeliveredParts(Run(front));
      } else {
        NotTaken(Run(front), last.nmea, last.length);
        assert Accepted(calls) == Accepted(front);
      }
    }
  }

  /** And that is when the journal has no dropped batch. */
  lemma {:induction false} DropsNothingIff(calls: seq<Input>)
    ensures DropsNothing(calls) <==> AllSent(JournalOf(calls).batches)
  {
    hide Contains, Run, Explains, Record;
    if calls == [] {
    } else {
      var front, last := calls[..|calls| - 1], calls[|calls| - 1];
      DropsNothingIff(front);
      Conservation(front);
      PendingRendered(JournalOf(front), Accepted(front), Run(front));
      RecordsDrop(JournalOf(front), last.nmea, last.length);
    }
  }

  lemma PendingRendered(j: Journal, accepted: seq<string>, s: State)
    requires Explains(j.batches, j.pending, accepted, s)
    ensures s.sendToSize == |Render(j.pending)|
    ensures j.pending != [] <==> s.sendToSize > 0
  {
  }

  ghost predicate AllSent(batches: seq<Batch>) {
    forall b | b in batches :: b.Sent?
  }

  lemma AllSentAppended(batches: seq<Batch>, b: Batch)
    ensures AllSent(batches + [b]) <==> AllSent(batches) && b.Sent?
  {
    assert b in batches + [b] && forall x | x in batches :: x in batches + [b];
  }

  lemma RecordsDrop(j: Journal, nmea: string, length: int)
    ensures AllSent(Record(j, nmea, length).batches) <==>
      && AllSent(j.batches)
      && (IsGps(nmea) && j.pending != [] ==> |Render(j.pending)| + length <= BUFFER_SIZE)
  {
    hide Contains, Render, AllSent;
    if IsGps(nmea) {
      var drops := j.pending != [] && |Render(j.pending)| + length > BUFFER_SIZE;
      var j1 := if drops then Journal(j.batches + [Dropped(j.pending)], []) else j;
      AllSentAppended(j.batches, Dropped(j.pending));
      AllSentAppended(j1.batches, Sent(j1.pending + [nmea]));
    }
  }

  lemma NothingYet()
    ensures Delivered(INITIAL) == ""
  {
  }

  lemma DeliveredParts(s: State)
    requires Good(s)
    ensures |Delivered(s)| == |Flatten(s.outbox)| + s.sendToSize
    ensures s.sendToSize == 0 ==> Delivered(s) == Flatten(s.outbox)
  {
  }

  lemma NotTaken(s: State, nmea: string, length: int)
    requires Good(s) && !IsGps(nmea)
    ensures Call(s, nmea, length) == s
  {
  }

  // -------------------------------------------------- staying inside the array

  /** How far into the buffer a call writes: the pending text, the sentence, the carriage
      return and the NUL behind it. */
  function WrittenEnd(s: State, nmea: string, length: int): int {
    if !IsGps(nmea) then 0 else
      (if s.sendToSize + length > BUFFER_SIZE then 0 else s.sendToSize) + |nmea| + 2
  }

  /** That is one past what the call leaves: in the buffer, or in the datagram it sends. */
  lemma WrittenEndIsSize(s: State, nmea: string, length: int)
    requires Good(s) && IsGps(nmea)
    ensures var s' := Call(s, nmea, length);
      WrittenEnd(s, nmea, length) == 1 + if IsFix(nmea) then |s'.outbox[|s'.outbox| - 1]| else s'.sendToSize
  {
    hide Contains;
  }

  /** No call of a run writes past the array. */
  predicate Inside(calls: seq<Input>) {
    calls == [] ||
    var front, last := calls[..|calls| - 1], calls[|calls| - 1];
    Inside(front) && WrittenEnd(Run(front), last.nmea, last.length) <= BUFFER_SIZE
  }

  /** What such a run can leave pending: nothing, or at least the three characters that
      every accepted sentence has with its carriage return, and at most what leaves room for
      the NUL. */
  lemma {:induction false} PendingSize(calls: seq<Input>)
    requires Inside(calls)
    ensures Run(calls).sendToSize == 0 || 4 <= Run(calls).sendToSize <= 1023
  {
    hide Contains;
    if calls == [] {
    } else {
      var front, last := calls[..|calls| - 1], calls[|calls| - 1];
      PendingSize(front);
      if IsGps(last.nmea) {
        HoldsNeedle(last.nmea, "$GP");
        WrittenEndIsSize(Run(front), last.nmea, last.length);
      } else {
        NotTaken(Run(front), last.nmea, last.length);
      }
    }
  }

  lemma {:induction false} HoldsNeedle(text: string, needle: string)
    requires Contains(text, needle)
    ensures |needle| <= |text| && forall c | c in needle :: c in text
  {
    if needle <= text {
      assert text == needle + text[|needle|..];
    } else {
      HoldsNeedle(text[1..], needle);
    }
  }

  lemma NoFixWithoutA(nmea: string)
    requires 'A' !in nmea
    ensures !IsFix(nmea)
  {
    assert 'A' == "GPGGA"[4];
    if IsFix(nmea) {
      HoldsNeedle(nmea, "GPGGA");
    }
  }

  /** Any of those sizes does come up. */
  lemma PendingReached(n: nat)
    requires 4 <= n < BUFFER_SIZE
    ensures exists calls :: Inside(calls) && Run(calls).sendToSize == n
  {
    var nmea := "$GP" + Blank(n - 4);
    NoFixWithoutA(nmea);
    var calls := [Input(nmea, |nmea|)];
    assert calls[..0] == [];
    assert Run([]) == INITIAL && Inside([]);
    assert IsGps(nmea);
    assert Inside(calls) && Run(calls).sendToSize == n;
  }

  function Blank(n: nat): (s: string)
    ensures |s| == n && forall c | c in s :: c == ' '
  {
    if n == 0 then "" else Blank(n - 1) + " "
  }

  /** The test looks at `length`; the write takes the text's own length and two. */
  predicate LengthSuffices(nmea: string, length: int) {
    IsGps(nmea) ==> |nmea| + 2 <= 1024 && (length >= |nmea| + 2 || length > 1020)
  }

  /** Whatever run came before, the call stays inside if the run did. */
  ghost predicate StaysInside(nmea: string, length: int) {
    forall calls | Inside(calls) :: WrittenEnd(Run(calls), nmea, length) <= 1024
  }

  lemma GoesOutside(calls: seq<Input>, nmea: string, length: int)
    requires Inside(calls) && WrittenEnd(Run(calls), nmea, length) > BUFFER_SIZE
    ensures !StaysInside(nmea, length)
  {
  }

  /** The overflow test keeps a call inside the array after every run that stayed inside, if
      and only if the text fits with its carriage return and NUL, and the length passed
      counts these two or is so long that whatever is pending gives way. */
  lemma {:induction false} TestSufficesIff(nmea: string, length: int)
    ensures StaysInside(nmea, length) <==> LengthSuffices(nmea, length)
  {
    hide Contains, Run, Inside;
    if LengthSuffices(nmea, length) {
      forall calls | Inside(calls) ensures WrittenEnd(Run(calls), nmea, length) <= BUFFER_SIZE {
        PendingSize(calls);
      }
    } else if |nmea| + 2 > BUFFER_SIZE {
      NothingWritten();
      GoesOutside([], nmea, length);
    } else {
      HoldsNeedle(nmea, "$GP");
      var n := if length <= 0 then BUFFER_SIZE - 1 else BUFFER_SIZE - length;
      PendingReached(n);
      var calls :| Inside(calls) && Run(calls).sendToSize == n;
      GoesOutside(calls, nmea, length);
    }
  }

  lemma NothingWritten()
    ensures Inside([])
  {
  }

  /** So a run whose calls all pass such lengths never writes past the array. */
  lemma {:induction false} RunStaysInside(calls: seq<Input>)
    requires forall c | c in calls :: LengthSuffices(c.nmea, c.length)
    ensures Inside(calls)
  {
    hide Contains, LengthSuffices, Run;
    if calls == [] {
    } else {
      var front, last := calls[..|calls| - 1], calls[|calls| - 1];
      assert last in calls && forall c | c in front :: c in calls;
      RunStaysInside(front);
      TestSufficesIff(last.nmea, last.length);
    }
  }

  function Flatten(datagrams: seq<string>): string {
    if datagrams == [] then "" else
      Flatten(datagrams[..|datagrams| - 1]) + datagrams[|datagrams| - 1]
  }

  lemma FlattenAppended(datagrams: seq<string>, d: string)
    ensures Flatten(datagrams + [d]) == Flatten(datagrams) + d
  {
    assert (datagrams + [d])[..|datagrams|] == datagrams;
  }
}
