/** The broadcast ring with one operation at a time: a circular buffer that stands for the newest
    part of an unbounded log. */
module Ring {
  import opened Common

  const RING_SLOTS: nat := 1024
  const CHAN_MAX: nat := 64
  const PAYLOAD_MAX: nat := 3072

  /** A published event: channel and payload. */
  datatype Event = Event(chan: Bytes, payload: Bytes)

  /** A slot of shared memory: the buffers keep whatever was there beyond the lengths. */
  datatype Slot = Slot(stamp: nat, chanLen: nat, payloadLen: nat, chan: Bytes, payload: Bytes)

  predicate Sized(sl: Slot) {
    |sl.chan| == CHAN_MAX && |sl.payload| == PAYLOAD_MAX
  }

  const ZERO_SLOT: Slot := Slot(0, 0, 0, Repeat(0, CHAN_MAX), Repeat(0, PAYLOAD_MAX))

  /** Bytes copied to the start of a buffer. */
  function Copied(buf: Bytes, src: Bytes): (r: Bytes)
    requires |src| <= |buf|
    ensures |r| == |buf| && r[..|src|] == src
  {
    src + buf[|src|..]
  }

  /** The slot of a sequence number. */
  function Index(s: nat): (i: nat)
    requires 0 < s
    ensures i < RING_SLOTS
  {
    (s - 1) % RING_SLOTS
  }

  lemma NearbySlotsDiffer(s: nat, t: nat)
    requires 0 < s < t < s + RING_SLOTS
    ensures Index(s) != Index(t)
  {
  }

  /** The slot holds event `e` under sequence number `s`. */
  predicate Holds(sl: Slot, s: nat, e: Event) {
    && Sized(sl) && sl.stamp == s
    && sl.chanLen == |e.chan| <= CHAN_MAX && sl.payloadLen == |e.payload| <= PAYLOAD_MAX
    && sl.chan[..sl.chanLen] == e.chan && sl.payload[..sl.payloadLen] == e.payload
  }

  /** The newest events after `last`, at most a ring of them. */
  function Newest(log: seq<Event>, last: nat): seq<Event> {
    if last < |log| then log[|log| - Min(|log| - last, RING_SLOTS)..] else []
  }

  class Ring {
    var writeSeq: nat
    const slots: array<Slot>
    /** Everything ever published. */
    ghost var log: seq<Event>

    ghost predicate Valid()
      reads this, slots
    {
      && slots.Length == RING_SLOTS && writeSeq == |log|
      && (forall i | 0 <= i < RING_SLOTS :: Sized(slots[i]))
      && forall s | 0 < s <= writeSeq < s + RING_SLOTS :: Holds(slots[Index(s)], s, log[s - 1])
    }

    constructor ()
      ensures Valid() && log == [] && fresh(slots)
    {
      writeSeq := 0;
      slots := new Slot[RING_SLOTS](_ => ZERO_SLOT);
      log := [];
    }

    /** `publish`: appended to the log, or refused for its size. */
    method Publish(chan: Bytes, payload: Bytes) returns (ok: bool)
      requires Valid()
      modifies this, slots
      ensures Valid()
      ensures ok <==> |chan| <= CHAN_MAX && |payload| <= PAYLOAD_MAX
      ensures log == if ok then old(log) + [Event(chan, payload)] else old(log)
    {
      if |chan| > CHAN_MAX || |payload| > PAYLOAD_MAX {
        return false;
      }
      writeSeq := writeSeq + 1;
      var i := Index(writeSeq);
      slots[i] := slots[i].(stamp := 0);
      slots[i] := slots[i].(chanLen := |chan|);
      slots[i] := slots[i].(payloadLen := |payload|);
      slots[i] := slots[i].(chan := Copied(slots[i].chan, chan));
      slots[i] := slots[i].(payload := Copied(slots[i].payload, payload));
      slots[i] := slots[i].(stamp := writeSeq);
      log := log + [Event(chan, payload)];
      forall s | 0 < s < writeSeq < s + RING_SLOTS
        ensures Holds(slots[Index(s)], s, log[s - 1])
      {
        NearbySlotsDiffer(s, writeSeq);
      }
      return true;
    }

    /** `current_seq`: a subscriber that starts here has nothing to read. */
    method CurrentSeq() returns (w: nat)
      requires Valid()
      ensures w == |log| && Newest(log, w) == []
    {
      w := writeSeq;
    }

    /** `read_from`: exactly the newest events after `last`, in order, and where to go on. */
    method ReadFrom(last: nat) returns (out: seq<Event>, w: nat)
      requires Valid()
      ensures w == |log| && out == Newest(log, last)
    {
      hide Index;
      w := writeSeq;
      out := [];
      if w == 0 || w <= last {
        return;
      }
      var start := Max(last + 1, if w < RING_SLOTS - 1 then 0 else w - (RING_SLOTS - 1));
      var s := start;
      while s <= w
        invariant start <= s <= w + 1
        invariant out == log[start - 1..s - 1]
      {
        var i := Index(s);
        assert Holds(slots[i], s, log[s - 1]);
        if slots[i].stamp == s {
          var clen := Min(slots[i].chanLen, CHAN_MAX);
          var plen := Min(slots[i].payloadLen, PAYLOAD_MAX);
          var chan := slots[i].chan[..clen];
          var payload := slots[i].payload[..plen];
          if slots[i].stamp == s {
            out := out + [Event(chan, payload)];
          }
        }
        s := s + 1;
      }
      assert out == log[start - 1..];
    }
  }

  // ---- A subscriber that keeps up ----

  /** Logs at successive reads: each extends the one before. */
  predicate Growing(logs: seq<seq<Event>>) {
    |logs| <= 1 || (Growing(logs[..|logs| - 1]) && logs[|logs| - 2] <= logs[|logs| - 1])
  }

  /** All a subscriber is given, reading at each of these logs and going on from where it was. */
  function Received(logs: seq<seq<Event>>): seq<Event>
    requires 0 < |logs|
  {
    if |logs| == 1 then []
    else Received(logs[..|logs| - 1]) + Newest(logs[|logs| - 1], |logs[|logs| - 2]|)
  }

  /** Never more than a ring behind. */
  predicate KeepsUp(logs: seq<seq<Event>>) {
    |logs| <= 1 || (KeepsUp(logs[..|logs| - 1]) && |logs[|logs| - 1]| <= |logs[|logs| - 2]| + RING_SLOTS)
  }

  lemma {:induction false} ReceivesNoMore(logs: seq<seq<Event>>)
    requires 0 < |logs| && Growing(logs)
    ensures |logs[0]| <= |logs[|logs| - 1]|
    ensures |Received(logs)| <= |logs[|logs| - 1]| - |logs[0]|
    ensures !KeepsUp(logs) ==> |Received(logs)| < |logs[|logs| - 1]| - |logs[0]|
  {
    if |logs| > 1 {
      ReceivesNoMore(logs[..|logs| - 1]);
    }
  }

  lemma {:induction false} KeepingUpRebuilds(logs: seq<seq<Event>>)
    requires 0 < |logs| && Growing(logs) && KeepsUp(logs)
    ensures |logs[0]| <= |logs[|logs| - 1]| && Received(logs) == logs[|logs| - 1][|logs[0]|..]
  {
    if |logs| > 1 {
      var init := logs[..|logs| - 1];
      KeepingUpRebuilds(init);
      assert Received(logs) == Received(init) + Newest(logs[|logs| - 1], |logs[|logs| - 2]|);
      hide Received, Growing, KeepsUp, Newest;
      Caught(logs[|logs| - 2], logs[|logs| - 1], |logs[0]|);
    }
  }

  /** What a subscriber had, and the newest events of a log not a ring longer. */
  lemma Caught(was: seq<Event>, log: seq<Event>, from: nat)
    requires from <= |was| && was <= log && |log| <= |was| + RING_SLOTS
    ensures was[from..] + Newest(log, |was|) == log[from..]
  {
    assert was == log[..|was|];
    assert Newest(log, |was|) == log[|was|..];
  }

  /** A subscriber rebuilds the log from where it joined, each event once and in order, exactly when
      it is never more than a ring behind. */
  lemma RebuildsIffKeepsUp(logs: seq<seq<Event>>)
    requires 0 < |logs| && Growing(logs)
    ensures |logs[0]| <= |logs[|logs| - 1]|
    ensures Received(logs) == logs[|logs| - 1][|logs[0]|..] <==> KeepsUp(logs)
  {
    ReceivesNoMore(logs);
    if KeepsUp(logs) {
      KeepingUpRebuilds(logs);
    }
  }
}
