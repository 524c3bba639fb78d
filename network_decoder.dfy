/**
 * The header-visible logic of the network decoder: the fixed-capacity circular queue
 * `output_buffer<T>` that hands decoded frames from the decoder to the consumer, the
 * "which context holds this track" rule and the waiting-status preference.
 */
module NetworkDecoder {
  import opened Wrappers

  /** `head == num ? 0 : head + 1`: the index after `i` in a buffer of `num + 1` slots. */
  function NextIndex(i: nat, num: nat): (j: nat)
    requires i <= num
    ensures j <= num
    ensures j == (i + 1) % (num + 1)
  {
    if i == num then 0 else i + 1
  }

  /** The `count` slot indices, starting at `from`, visited by repeatedly advancing with wrap-around. */
  function CyclicSlots(from: nat, count: nat, num: nat): (s: seq<nat>)
    requires from <= num
    decreases count
    ensures |s| == count
  {
    if count == 0 then [] else [from] + CyclicSlots(NextIndex(from, num), count - 1, num)
  }

  /** Advancing `k <= num` times from `from` lands on `from + k` taken modulo `num + 1`. */
  function Advance(from: nat, k: nat, num: nat): (j: nat)
    requires from <= num
    decreases k
  {
    if k == 0 then from else Advance(NextIndex(from, num), k - 1, num)
  }

  lemma {:induction false} AdvanceIsModular(from: nat, k: nat, num: nat)
    requires from <= num && k <= num + 1
    ensures Advance(from, k, num) == if from + k <= num then from + k else from + k - (num + 1)
    decreases k
  {
    if k > 0 {
      AdvanceIsModular(NextIndex(from, num), k - 1, num);
    }
  }

  /** Appending one more step to a cyclic walk adds the slot reached after `count` steps. */
  lemma {:induction false} CyclicSlotsSnoc(from: nat, count: nat, num: nat)
    requires from <= num
    ensures Advance(from, count, num) <= num
    ensures CyclicSlots(from, count + 1, num) == CyclicSlots(from, count, num) + [Advance(from, count, num)]
    decreases count
  {
    if count == 0 {
    } else {
      CyclicSlotsSnoc(NextIndex(from, num), count - 1, num);
    }
  }

  lemma {:induction false} CyclicSlotsBounded(from: nat, count: nat, num: nat)
    requires from <= num
    ensures forall i :: 0 <= i < count ==> CyclicSlots(from, count, num)[i] <= num
    decreases count
  {
    if count > 0 {
      CyclicSlotsBounded(NextIndex(from, num), count - 1, num);
    }
  }

  /**
   * `network_decoder_::output_buffer<T>`. The slot vector holds `num + 1` entries; `head` is
   * the slot the next pushed element goes in, `tail` the slot popped next, and one slot is
   * always left free, so at most `num` slots are in use.
   * The ghost logs record the slot indices handed out by successful pushes and pops since
   * the last `init` or `clear`; `Valid` ties them together, which is the FIFO property.
   */
  class OutputBuffer<T> {
    var num: nat
    var buffer: seq<T>
    var head: nat
    var tail: nat
    ghost var pushed: seq<nat>
    ghost var popped: seq<nat>

    ghost predicate Valid()
      reads this
    {
      && head <= num && tail <= num
      && (|buffer| == num + 1 || (num == 0 && buffer == []))
      && pushed == popped + Queued()
    }

    /** `size()`: how many slots lie between `tail` and `head`. */
    function Size(): (n: nat)
      reads this
      requires head <= num && tail <= num
      ensures n <= num
      ensures Advance(tail, n, num) == head
    {
      AdvanceIsModular(tail, if head >= tail then head - tail else head + num + 1 - tail, num);
      if head >= tail then head - tail else head + num + 1 - tail
    }

    /** `full`: the slot after `head` is `tail`, the one slot the ring always keeps free. */
    function Full(): (f: bool)
      reads this
      requires head <= num && tail <= num
      ensures f <==> NextIndex(head, num) == tail
    {
      Size() == num
    }

    /** `empty`: the two indices meet. */
    function Empty(): (e: bool)
      reads this
      requires head <= num && tail <= num
      ensures e <==> head == tail
    {
      Size() == 0
    }

    /** The slot indices currently queued, oldest first. */
    ghost function Queued(): (q: seq<nat>)
      reads this
      requires head <= num && tail <= num
      ensures |q| == Size()
    {
      CyclicSlots(tail, Size(), num)
    }

    /** A default-constructed buffer: no slots, `num`, `head` and `tail` all 0. */
    constructor ()
      ensures Valid()
      ensures num == 0 && buffer == [] && head == 0 && tail == 0
      ensures pushed == [] && popped == []
    {
      num, buffer, head, tail := 0, [], 0, 0;
      pushed, popped := [], [];
    }

    /** `init`: take the slots, keep one of them free, start empty. */
    method Init(slots: seq<T>)
      requires |slots| >= 1
      modifies this
      ensures Valid()
      ensures num == |slots| - 1 && buffer == slots && head == 0 && tail == 0
      ensures Empty() && Queued() == []
      ensures pushed == [] && popped == []
    {
      num := |slots| - 1;
      buffer := slots;
      head, tail := 0, 0;
      pushed, popped := [], [];
    }

    /** `deinit`: give the slots back and return to the default state. */
    method Deinit() returns (res: seq<T>)
      requires Valid()
      modifies this
      ensures Valid()
      ensures res == old(buffer)
      ensures buffer == [] && num == 0 && head == 0 && tail == 0
      ensures pushed == [] && popped == []
    {
      res := buffer;
      buffer := [];
      num := 0;
      head, tail := 0, 0;
      pushed, popped := [], [];
    }

    /** `get_next_pushed`: the slot the producer fills next, or none when the buffer is full. */
    function NextPushed(): (r: Option<T>)
      reads this
      requires Valid()
      ensures r.None? <==> Size() == num
      ensures r.Some? ==> head < |buffer| && r.value == buffer[head]
    {
      if Full() then None else Some(buffer[head])
    }

    /** `push`: publish the slot returned by `NextPushed`; fails, changing nothing, when full. */
    method Push() returns (ok: bool)
      requires Valid()
      modifies this
      ensures Valid()
      ensures ok == (old(Size()) < old(num))
      ensures buffer == old(buffer) && num == old(num) && tail == old(tail)
      ensures ok ==> head == NextIndex(old(head), num) && Size() == old(Size()) + 1
      ensures ok ==> Queued() == old(Queued()) + [old(head)] && pushed == old(pushed) + [old(head)]
      ensures !ok ==> head == old(head) && Queued() == old(Queued()) && pushed == old(pushed)
      ensures popped == old(popped)
    {
      if Full() {
        return false;
      }
      ghost var slot := head;
      CyclicSlotsSnoc(tail, Size(), num);
      head := if head == num then 0 else head + 1;
      pushed := pushed + [slot];
      return true;
    }

    /** `get_next_poped`: the oldest queued slot, or none when the buffer is empty. */
    function NextPopped(): (r: Option<T>)
      reads this
      requires Valid()
      ensures r.None? <==> Size() == 0
      ensures r.Some? ==> tail < |buffer| && r.value == buffer[tail] && Queued()[0] == tail
    {
      if Empty() then None else Some(buffer[tail])
    }

    /** `pop`: release the slot returned by `NextPopped`; fails, changing nothing, when empty. */
    method Pop() returns (ok: bool)
      requires Valid()
      modifies this
      ensures Valid()
      ensures ok == (old(Size()) > 0)
      ensures buffer == old(buffer) && num == old(num) && head == old(head)
      ensures ok ==> tail == NextIndex(old(tail), num) && Size() == old(Size()) - 1
      ensures ok ==> old(Queued()) == [old(tail)] + Queued() && popped == old(popped) + [old(tail)]
      ensures !ok ==> tail == old(tail) && Queued() == old(Queued()) && popped == old(popped)
      ensures pushed == old(pushed)
    {
      if Empty() {
        return false;
      }
      popped := popped + [tail];
      tail := if tail == num then 0 else tail + 1;
      return true;
    }

    /** `clear`: drop everything queued by moving `head` back to `tail`. */
    method Clear()
      requires Valid()
      modifies this
      ensures Valid()
      ensures Empty() && Queued() == []
      ensures buffer == old(buffer) && num == old(num) && tail == old(tail) && head == old(tail)
      ensures pushed == [] && popped == []
    {
      head := tail;
      pushed, popped := [], [];
    }
  }

  /**
   * FIFO: on a valid buffer the slots popped so far are exactly the first slots pushed, in
   * the same order, and the slot `NextPopped` offers is the next one in push order.
   */
  lemma PoppedArePushedPrefix<T>(b: OutputBuffer<T>, k: nat)
    requires b.Valid() && k < |b.popped|
    ensures k < |b.pushed| && b.popped[k] == b.pushed[k]
  {
  }

  lemma {:induction false} NextPoppedIsNextPushed<T>(b: OutputBuffer<T>)
    requires b.Valid() && b.Size() > 0
    ensures |b.popped| < |b.pushed| && b.pushed[|b.popped|] == b.tail
    ensures b.NextPopped() == Some(b.buffer[b.pushed[|b.popped|]])
  {
    assert b.Queued()[0] == b.tail;
    assert b.pushed[|b.popped|] == b.Queued()[0];
  }

  datatype Track = Video | Audio

  /** `VIDEO = 0`, `AUDIO = 1`: the index of a track's stream number and network stream. */
  function TrackIndex(t: Track): nat {
    match t
    case Video => 0
    case Audio => 1
  }

  /**
   * `get_stream`: the format context a track's stream is read from,
   * `format_context[video_audio_seperate ? type : BOTH]` with `BOTH = 0`.
   */
  function ContextIndex(separate: bool, t: Track): (i: nat)
    ensures i < 2
    ensures !separate ==> i == 0
    ensures separate ==> i == TrackIndex(t)
  {
    if separate then TrackIndex(t) else 0
  }

  /** Separate streams use two distinct contexts; a muxed stream shares one. */
  lemma ContextsDistinctIffSeparate(separate: bool)
    ensures (ContextIndex(separate, Video) != ContextIndex(separate, Audio)) <==> separate
  {
  }

  /** A network stream as far as the waiting status is concerned; `None` is a NULL status. */
  datatype NetworkStream = NetworkStream(waitingStatus: Option<string>)

  /**
   * `get_network_waiting_status`: the video stream's status if it has one, else the audio
   * stream's, else none. A missing stream (`None`) is a NULL `network_stream` pointer.
   */
  function WaitingStatus(video: Option<NetworkStream>, audio: Option<NetworkStream>): (r: Option<string>)
    ensures video.Some? && video.value.waitingStatus.Some? ==> r == video.value.waitingStatus
    ensures !(video.Some? && video.value.waitingStatus.Some?) && audio.Some? ==> r == audio.value.waitingStatus
    ensures video.None? && audio.None? ==> r == None
    ensures r.Some? ==> (video.Some? && video.value.waitingStatus == r) || (audio.Some? && audio.value.waitingStatus == r)
  {
    if video.Some? && video.value.waitingStatus.Some? then video.value.waitingStatus
    else if audio.Some? && audio.value.waitingStatus.Some? then audio.value.waitingStatus
    else None
  }
}
