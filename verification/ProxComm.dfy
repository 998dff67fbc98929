/** The recorder of prox.comm messages of pyaseba/client/thymio/thymio.py: between two prox events the
    client collects the messages, and it copes with the loss of prox events. */
module ProxComm {

  /** A received event, with the counter that ends its payload. */
  datatype Event<T> = Comm(counter: int, data: T) | Prox(counter: int)

  datatype State<T> = State(counter: int, buffer: seq<T>, next: map<int, seq<T>>)

  const MODULUS := 0xFFFF

  function Unwrap(old_: int, sample: int): int {
    old_ + (sample - old_) % MODULUS
  }

  function Step<T>(s: State<T>, e: Event<T>): State<T> {
    var c := Unwrap(s.counter, e.counter);
    match e
    case Comm(_, data) =>
      if c in s.next then State(c, s.buffer, s.next[c := s.next[c] + [data]])
      else State(c, if c - 1 in s.next then s.next[c - 1] else s.buffer, map[c := [data]])
    case Prox(_) =>
      State(c, if c in s.next then s.next[c] else [], map[])
  }

  function Run<T>(es: seq<Event<T>>): State<T> {
    if es == [] then State(0, [], map[]) else Step(Run(es[..|es| - 1]), es[|es| - 1])
  }

  class Recorder<T> {
    var recording: bool
    var proxCommBuffer: seq<T>
    var nextProxCommBuffers: map<int, seq<T>>
    var proxCommCounter: int

    ghost function Snapshot(): State<T>
      reads this
    {
      State(proxCommCounter, proxCommBuffer, nextProxCommBuffers)
    }

    constructor (record: bool)
      ensures recording == record && Snapshot() == Run([])
    {
      recording := record;
      proxCommBuffer, nextProxCommBuffers, proxCommCounter := [], map[], 0;
    }

    /** Switching the recording off forgets the messages, but not the counter. */
    method SetRecording(value: bool)
      modifies this
      ensures recording == value
      ensures proxCommCounter == old(proxCommCounter)
      ensures Snapshot() == if value then old(Snapshot()) else State(old(proxCommCounter), [], map[])
    {
      recording := value;
      if !value {
        proxCommBuffer, nextProxCommBuffers := [], map[];
      }
    }

    method UpdateProxCounter(counter: int) returns (c: int)
      modifies this`proxCommCounter
      ensures c == proxCommCounter == Unwrap(old(proxCommCounter), counter)
    {
      var diff := (counter - proxCommCounter) % MODULUS;
      proxCommCounter := proxCommCounter + diff;
      c := proxCommCounter;
    }

    method AppendToProxCommBuffer(counter: int, data: T)
      modifies this`proxCommCounter, this`proxCommBuffer, this`nextProxCommBuffers
      ensures Snapshot() == Step(old(Snapshot()), Comm(counter, data))
    {
      var c := UpdateProxCounter(counter);
      if c !in nextProxCommBuffers {
        if c - 1 in nextProxCommBuffers {
          proxCommBuffer := nextProxCommBuffers[c - 1];
        }
        nextProxCommBuffers := map[c := [data]];
      } else {
        nextProxCommBuffers := nextProxCommBuffers[c := nextProxCommBuffers[c] + [data]];
      }
    }

    method UpdateProxCommBuffer(counter: int)
      modifies this`proxCommCounter, this`proxCommBuffer, this`nextProxCommBuffers
      ensures Snapshot() == Step(old(Snapshot()), Prox(counter))
    {
      var c := UpdateProxCounter(counter);
      proxCommBuffer := if c in nextProxCommBuffers then nextProxCommBuffers[c] else [];
      nextProxCommBuffers := map[];
    }

    method ExtraEventCallback(e: Event<T>)
      modifies this
      ensures recording == old(recording)
      ensures Snapshot() == if recording then Step(old(Snapshot()), e) else old(Snapshot())
    {
      if recording {
        match e {
          case Comm(counter, data) => AppendToProxCommBuffer(counter, data);
          case Prox(counter) => UpdateProxCommBuffer(counter);
        }
      }
    }

    /** A recorder that is on from the start, after any events. */
    method Record(es: seq<Event<T>>)
      requires recording && Snapshot() == Run([])
      modifies this
      ensures Snapshot() == Run(es)
    {
      for i := 0 to |es|
        invariant recording && Snapshot() == Run(es[..i])
      {
        assert es[..i + 1][..i] == es[..i];
        ExtraEventCallback(es[i]);
      }
      assert es[..|es|] == es;
    }
  }

  // ---------------------------------------------------------------- for any events

  /** The counter becomes the least value not below the old one that agrees with the sample. */
  lemma {:induction false} UnwrapIsLeast(old_: int, sample: int, v: int)
    ensures Unwrap(old_, sample) >= old_
    ensures (Unwrap(old_, sample) - sample) % MODULUS == 0
    ensures v >= old_ && (v - sample) % MODULUS == 0 ==> v >= Unwrap(old_, sample)
  {
  }

  /** Messages are only ever waiting for the current counter. */
  lemma {:induction false} AtMostOneKey<T>(es: seq<Event<T>>)
    ensures var s := Run(es);
            s.next == map[] || (s.next.Keys == {s.counter} && s.next[s.counter] != [] && es != [] && es[|es| - 1].Comm?)
  {
    if es != [] {
      var s, t := Run(es[..|es| - 1]), Run(es);
      AtMostOneKey(es[..|es| - 1]);
      assert t == Step(s, es[|es| - 1]);
      if t.counter in s.next { assert t.counter == s.counter; }
    }
  }

  // ---------------------------------------------------------------- counters that wrap

  /** The robot's int16 counter during the t-th group. */
  function Sample(t: nat): int {
    if t == 0 then 0 else if Sample(t - 1) == 32767 then -32768 else Sample(t - 1) + 1
  }

  /** What the client makes of it: the counter stays the same across a wrap. */
  function Tag(t: nat): nat {
    if t == 0 then 0 else if Sample(t - 1) == 32767 then Tag(t - 1) else Tag(t - 1) + 1
  }

  /** The client's counter falls behind by one every time the int16 counter wraps. */
  lemma {:induction false} TagFallsBehind(t: nat)
    ensures Sample(t) == (t + 32768) % 65536 - 32768
    ensures Tag(t) == t - (t + 32768) / 65536
    ensures (Tag(t) - Sample(t)) % MODULUS == 0
    ensures t <= 32767 ==> Tag(t) == t == Sample(t)
  {
    if t > 0 { TagFallsBehind(t - 1); }
    var w := (t + 32768) / 65536;
    assert Tag(t) - Sample(t) == w * MODULUS;
  }

  lemma {:induction false} TagMonotone(t: nat, u: nat)
    requires t <= u
    ensures Tag(t) <= Tag(u)
    decreases u
  {
    if t < u { TagMonotone(t, u - 1); }
  }

  /** Group u is the first after a wrap, and t the one before it. */
  predicate LastBeforeWrap(t: nat, u: nat) {
    Sample(t) == 32767 && u == t + 1
  }

  lemma {:induction false} TagGrows(t: nat, u: nat)
    requires t < u
    ensures Tag(t) < Tag(u) <==> !LastBeforeWrap(t, u)
  {
    if u > t + 1 {
      assert Sample(t) == 32767 ==> Sample(t + 1) == -32768;
      TagMonotone(t + 2, u);
    }
  }

  lemma {:induction false} TagEqual(t: nat, u: nat)
    requires t <= u
    ensures Tag(t) == Tag(u) <==> t == u || LastBeforeWrap(t, u)
  {
    if t < u {
      TagGrows(t, u);
      TagMonotone(t, u);
    }
  }

  /** From a group to a later one the counter follows, exactly if they are less than a full turn apart. */
  lemma {:induction false} UnwrapFollows(t: nat, u: nat)
    requires t <= u
    ensures Unwrap(Tag(t), Sample(u)) == Tag(u) <==> Tag(u) - Tag(t) < MODULUS
  {
    TagMonotone(t, u);
    TagFallsBehind(u);
    UnwrapIsLeast(Tag(t), Sample(u), Tag(u));
    var c := Unwrap(Tag(t), Sample(u));
    var p, q := (Tag(u) - Sample(u)) / MODULUS, (c - Sample(u)) / MODULUS;
    assert Tag(u) - c == (p - q) * MODULUS;
  }

  // ---------------------------------------------------------------- trace refinement

  /** An event as it happened, with the number of its group. */
  datatype Happening<T> = Message(group: nat, data: T) | Delimiter(group: nat)

  function Received<T>(h: Happening<T>): Event<T> {
    match h
    case Message(t, data) => Comm(Sample(t), data)
    case Delimiter(t) => Prox(Sample(t))
  }

  function ReceivedAll<T>(hs: seq<Happening<T>>): (es: seq<Event<T>>)
    ensures |es| == |hs| && forall k :: 0 <= k < |hs| ==> es[k] == Received(hs[k])
  {
    seq(|hs|, k requires 0 <= k < |hs| => Received(hs[k]))
  }

  /** Nothing before comes from a later group. A delimiter ends its group: the counter grows after it. */
  ghost predicate Precede<T>(before: seq<Happening<T>>, h: Happening<T>) {
    forall k :: 0 <= k < |before| ==> before[k].group <= h.group && (before[k].Delimiter? ==> before[k].group < h.group)
  }

  ghost predicate Ordered<T>(hs: seq<Happening<T>>) {
    hs == [] || (Ordered(hs[..|hs| - 1]) && Precede(hs[..|hs| - 1], hs[|hs| - 1]))
  }

  /** Never silent for a full turn of the counter, and not for the first turn either. */
  ghost predicate Close<T>(hs: seq<Happening<T>>) {
    hs == [] ||
    (var n := |hs| - 1;
     Close(hs[..n]) && Tag(hs[n].group) - (if n == 0 then 0 else Tag(hs[n - 1].group)) < MODULUS)
  }

  lemma {:induction false} OrderedAt<T>(hs: seq<Happening<T>>, p: nat)
    requires Ordered(hs) && p < |hs|
    ensures Precede(hs[..p], hs[p])
  {
    if p < |hs| - 1 {
      OrderedAt(hs[..|hs| - 1], p);
      assert hs[..|hs| - 1][..p] == hs[..p];
    }
  }

  /** What is received of a stream is in order if the stream is, whatever gets lost: keep gives the
      positions of the events that are not. */
  lemma {:induction false} LossKeepsOrder<T>(hs: seq<Happening<T>>, keep: seq<nat>, rs: seq<Happening<T>>)
    requires Ordered(hs) && |rs| == |keep|
    requires forall j, k :: 0 <= j < k < |keep| ==> keep[j] < keep[k]
    requires forall k :: 0 <= k < |keep| ==> keep[k] < |hs| && rs[k] == hs[keep[k]]
    ensures Ordered(rs)
  {
    if rs != [] {
      var n := |rs| - 1;
      LossKeepsOrder(hs, keep[..n], rs[..n]);
      OrderedAt(hs, keep[n]);
      forall k | 0 <= k < n ensures rs[..n][k] == hs[..keep[n]][keep[k]] {
        assert keep[k] < keep[n];
      }
    }
  }

  /** The messages of a group, in order. */
  function Group<T>(hs: seq<Happening<T>>, t: int): seq<T> {
    if hs == [] then []
    else
      var h := hs[|hs| - 1];
      Group(hs[..|hs| - 1], t) + if h.Message? && h.group == t then [h.data] else []
  }

  /** The messages with a tag since the last delimiter, in order. */
  function Waiting<T>(hs: seq<Happening<T>>, tag: int): seq<T> {
    if hs == [] || hs[|hs| - 1].Delimiter? then []
    else
      var h := hs[|hs| - 1];
      Waiting(hs[..|hs| - 1], tag) + if Tag(h.group) == tag then [h.data] else []
  }

  /** The messages on display. A delimiter displays the messages waiting for it. The first message of a
      group displays the group before, if a message of that is the last thing received: then its delimiter
      is lost. */
  function Displayed<T>(hs: seq<Happening<T>>): seq<T> {
    if hs == [] then []
    else
      var before, h := hs[..|hs| - 1], hs[|hs| - 1];
      if h.Delimiter? then Waiting(before, Tag(h.group))
      else if before != [] && before[|before| - 1].Message? && Tag(before[|before| - 1].group) == Tag(h.group) - 1
      then Waiting(before, Tag(h.group) - 1)
      else Displayed(before)
  }

  lemma {:induction false} NothingWaits<T>(hs: seq<Happening<T>>, tag: int)
    requires hs != [] && hs[|hs| - 1].Message? ==> forall k :: 0 <= k < |hs| ==> Tag(hs[k].group) < tag
    ensures Waiting(hs, tag) == []
  {
    if hs != [] && hs[|hs| - 1].Message? { NothingWaits(hs[..|hs| - 1], tag); }
  }

  lemma {:induction false} AdmissiblePrefix<T>(hs: seq<Happening<T>>, h: Happening<T>)
    requires Ordered(hs + [h]) && Close(hs + [h])
    ensures Ordered(hs) && Close(hs) && Precede(hs, h)
    ensures Tag(h.group) - (if hs == [] then 0 else Tag(hs[|hs| - 1].group)) < MODULUS
  {
  }

  lemma {:induction false} RunReceived<T>(hs: seq<Happening<T>>, h: Happening<T>)
    ensures Run(ReceivedAll(hs + [h])) == Step(Run(ReceivedAll(hs)), Received(h))
  {
    assert ReceivedAll(hs + [h])[..|hs|] == ReceivedAll(hs);
  }

  lemma {:induction false} WaitingStep<T>(hs: seq<Happening<T>>, h: Happening<T>, tag: int)
    requires h.Message?
    ensures Waiting(hs + [h], tag) == Waiting(hs, tag) + if Tag(h.group) == tag then [h.data] else []
  {
  }

  lemma {:induction false} DisplayedStep<T>(hs: seq<Happening<T>>, h: Happening<T>)
    ensures Displayed(hs + [h]) ==
            if h.Delimiter? then Waiting(hs, Tag(h.group))
            else if hs != [] && hs[|hs| - 1].Message? && Tag(hs[|hs| - 1].group) == Tag(h.group) - 1
            then Waiting(hs, Tag(h.group) - 1)
            else Displayed(hs)
  {
  }

  /** The state a recorder is in after the events received. */
  ghost function Expected<T>(hs: seq<Happening<T>>): State<T> {
    if hs == [] then State(0, [], map[])
    else
      var h := hs[|hs| - 1];
      State(Tag(h.group), Displayed(hs), if h.Message? then map[Tag(h.group) := Waiting(hs, Tag(h.group))] else map[])
  }

  /** Whatever has been lost: the counter is the tag of the last event, the messages kept are those waiting
      for the delimiter of its group, and the messages on display are the right ones. */
  lemma {:induction false} RecorderRefines<T>(hs: seq<Happening<T>>)
    requires Ordered(hs) && Close(hs)
    ensures Run(ReceivedAll(hs)) == Expected(hs)
  {
    if hs != [] {
      var before, h := hs[..|hs| - 1], hs[|hs| - 1];
      assert hs == before + [h];
      AdmissiblePrefix(before, h);
      RecorderRefines(before);
      RunReceived(before, h);
      RefineStep(before, h);
    }
  }

  lemma {:induction false} RefineStep<T>(hs: seq<Happening<T>>, h: Happening<T>)
    requires Ordered(hs + [h]) && Close(hs + [h])
    ensures Step(Expected(hs), Received(h)) == Expected(hs + [h])
  {
    var tag := Tag(h.group);
    AdmissiblePrefix(hs, h);
    if hs == [] {
      UnwrapFollows(0, h.group);
      DisplayedStep(hs, h);
      if h.Message? {
        WaitingStep(hs, h, tag);
        assert [] + [h.data] == [h.data];
      }
    } else {
      var last := hs[|hs| - 1];
      UnwrapFollows(last.group, h.group);
      TagMonotone(last.group, h.group);
      if last.Message? && Tag(last.group) == tag {
        RefineWithin(hs, h, last);
      } else {
        OrderedAt(hs, |hs| - 1);
        forall k | 0 <= k < |hs| ensures Tag(hs[k].group) <= Tag(last.group) {
          assert k < |hs| - 1 ==> hs[k] == hs[..|hs| - 1][k];
          TagMonotone(hs[k].group, last.group);
        }
        NothingWaits(hs, tag);
        RefineApart(hs, h, last);
      }
    }
  }

  lemma {:induction false} RefineApart<T>(hs: seq<Happening<T>>, h: Happening<T>, last: Happening<T>)
    requires hs != [] && last == hs[|hs| - 1] && Waiting(hs, Tag(h.group)) == []
    requires last.Message? ==> Tag(last.group) != Tag(h.group)
    requires Unwrap(Tag(last.group), Sample(h.group)) == Tag(h.group)
    ensures Step(Expected(hs), Received(h)) == Expected(hs + [h])
  {
    DisplayedStep(hs, h);
    assert (hs + [h])[|hs|] == h;
    if h.Message? {
      WaitingStep(hs, h, Tag(h.group));
      assert [] + [h.data] == [h.data];
    }
  }

  lemma {:induction false} RefineWithin<T>(hs: seq<Happening<T>>, h: Happening<T>, last: Happening<T>)
    requires hs != [] && last == hs[|hs| - 1] && last.Message? && Tag(last.group) == Tag(h.group)
    requires Unwrap(Tag(last.group), Sample(h.group)) == Tag(h.group)
    ensures Step(Expected(hs), Received(h)) == Expected(hs + [h])
  {
    var tag, waiting := Tag(h.group), Waiting(hs, Tag(h.group));
    DisplayedStep(hs, h);
    assert (hs + [h])[|hs|] == h;
    if h.Message? {
      WaitingStep(hs, h, tag);
      assert map[tag := waiting][tag := waiting + [h.data]] == map[tag := waiting + [h.data]];
    }
  }

  // ---------------------------------------------------------------- what is displayed

  lemma {:induction false} NothingInGroup<T>(hs: seq<Happening<T>>, t: int)
    requires forall k :: 0 <= k < |hs| ==> hs[k].group < t
    ensures Group(hs, t) == []
  {
    if hs != [] { NothingInGroup(hs[..|hs| - 1], t); }
  }

  /** Group t is the first after a wrap, and the delimiter of the group before has been lost. */
  ghost predicate Merged<T>(hs: seq<Happening<T>>, t: nat) {
    t > 0 && LastBeforeWrap(t - 1, t) && Delimiter(t - 1) !in hs
  }

  /** The messages waiting for a delimiter are those of its group; across a wrap also those of the group
      before, which has the same tag, unless its own delimiter has been received. */
  lemma {:induction false} WaitingIsGroup<T>(hs: seq<Happening<T>>, t: nat)
    requires Ordered(hs) && Precede(hs, Delimiter(t))
    ensures Waiting(hs, Tag(t)) == (if Merged(hs, t) then Group(hs, t - 1) else []) + Group(hs, t)
  {
    if hs != [] {
      var before, h := hs[..|hs| - 1], hs[|hs| - 1];
      assert hs == before + [h] && h in hs;
      if h.Delimiter? {
        NothingAfterDelimiter(before, h, t);
      } else {
        WaitingIsGroup(before, t);
        WaitingStep(before, h, Tag(t));
        MessageWaits(before, h, t);
      }
    }
  }

  lemma {:induction false} NothingAfterDelimiter<T>(before: seq<Happening<T>>, h: Happening<T>, t: nat)
    requires Precede(before, h) && h.Delimiter? && h.group < t
    ensures Group(before + [h], t) == []
    ensures (Merged(before + [h], t) ==> Group(before + [h], t - 1) == [])
  {
    var hs := before + [h];
    NothingInGroup(hs, t);
    if Merged(hs, t) {
      assert hs[|before|] == h;
      NothingInGroup(hs, t - 1);
    }
  }

  lemma {:induction false} MessageWaits<T>(before: seq<Happening<T>>, h: Happening<T>, t: nat)
    requires Precede(before, h) && h.Message? && h.group <= t
    ensures var added := if Tag(h.group) == Tag(t) then [h.data] else [];
            ((if Merged(before, t) then Group(before, t - 1) else []) + Group(before, t)) + added ==
            (if Merged(before + [h], t) then Group(before + [h], t - 1) else []) + Group(before + [h], t)
  {
    GroupStep(before, h, t);
    GroupStep(before, h, t - 1);
    assert Merged(before + [h], t) <==> Merged(before, t);
    if h.group < t { EarlierMessage(before, h, t); }
  }

  /** A message from before group t waits for its delimiter exactly if it is of the group merged with it. */
  lemma {:induction false} EarlierMessage<T>(before: seq<Happening<T>>, h: Happening<T>, t: nat)
    requires Precede(before, h) && h.Message? && h.group < t
    ensures Group(before, t) == []
    ensures Tag(h.group) == Tag(t) <==> Merged(before, t) && h.group == t - 1
  {
    NothingInGroup(before, t);
    TagEqual(h.group, t);
  }

  lemma {:induction false} GroupStep<T>(hs: seq<Happening<T>>, h: Happening<T>, t: int)
    ensures Group(hs + [h], t) == Group(hs, t) + if h.Message? && h.group == t then [h.data] else []
  {
  }

  /** A delimiter that arrives displays exactly the messages received of its group, except across a wrap. */
  lemma {:induction false} DelimiterDisplays<T>(hs: seq<Happening<T>>, t: nat)
    requires Ordered(hs + [Delimiter(t)]) && Close(hs + [Delimiter(t)])
    ensures Run(ReceivedAll(hs + [Delimiter(t)])).buffer ==
            (if Merged(hs, t) then Group(hs, t - 1) else []) + Group(hs, t)
    ensures Run(ReceivedAll(hs + [Delimiter(t)])).next == map[]
  {
    RecorderRefines(hs + [Delimiter(t)]);
    DisplayedStep(hs, Delimiter(t));
    AdmissiblePrefix(hs, Delimiter(t));
    WaitingIsGroup(hs, t);
  }

  /** A delimiter that gets lost is made up for by the next group's first message, if nothing else comes
      in between and the counter does not wrap. */
  lemma {:induction false} NextGroupDisplays<T>(hs: seq<Happening<T>>, t: nat, data: T)
    requires Ordered(hs + [Message(t + 1, data)]) && Close(hs + [Message(t + 1, data)])
    requires hs != [] && hs[|hs| - 1].Message? && hs[|hs| - 1].group == t && Sample(t) != 32767
    ensures var s := Run(ReceivedAll(hs + [Message(t + 1, data)]));
            s.buffer == (if Merged(hs, t) then Group(hs, t - 1) else []) + Group(hs, t)
              && s.next == map[Tag(t + 1) := [data]]
  {
    var h := Message(t + 1, data);
    assert Run(ReceivedAll(hs + [h])) == Expected(hs + [h]) by { RecorderRefines(hs + [h]); }
    assert Ordered(hs) by { AdmissiblePrefix(hs, h); }
    assert Waiting(hs, Tag(t + 1)) == [] && Precede(hs, Delimiter(t)) by { NothingBeyondLast(hs, t); }
    assert Tag(t + 1) - 1 == Tag(t);
    assert Expected(hs + [h]).buffer == Waiting(hs, Tag(t)) && Expected(hs + [h]).next == map[Tag(t + 1) := [data]] by {
      ExpectedNext(hs, h);
    }
    assert Waiting(hs, Tag(t)) == (if Merged(hs, t) then Group(hs, t - 1) else []) + Group(hs, t) by {
      WaitingIsGroup(hs, t);
    }
  }

  lemma {:induction false} NothingBeyondLast<T>(hs: seq<Happening<T>>, t: nat)
    requires Ordered(hs) && hs != [] && hs[|hs| - 1].Message? && hs[|hs| - 1].group == t && Sample(t) != 32767
    ensures Precede(hs, Delimiter(t))
    ensures Waiting(hs, Tag(t + 1)) == []
  {
    forall k | 0 <= k < |hs| ensures hs[k].group <= t && (hs[k].Delimiter? ==> hs[k].group < t) {
      assert k < |hs| - 1 ==> hs[k] == hs[..|hs| - 1][k];
    }
    forall k | 0 <= k < |hs| ensures Tag(hs[k].group) < Tag(t + 1) {
      TagMonotone(hs[k].group, t);
    }
    NothingWaits(hs, Tag(t + 1));
  }

  lemma {:induction false} ExpectedNext<T>(hs: seq<Happening<T>>, h: Happening<T>)
    requires hs != [] && hs[|hs| - 1].Message? && Tag(hs[|hs| - 1].group) == Tag(h.group) - 1
    requires h.Message? && Waiting(hs, Tag(h.group)) == []
    ensures Expected(hs + [h]).buffer == Waiting(hs, Tag(h.group) - 1)
    ensures Expected(hs + [h]).next == map[Tag(h.group) := [h.data]]
  {
    DisplayedStep(hs, h);
    WaitingStep(hs, h, Tag(h.group));
    assert (hs + [h])[|hs|] == h && [] + [h.data] == [h.data];
  }

  /** The counter before its first wrap: nothing is ever merged. */
  lemma {:induction false} NothingMergesBeforeWrap<T>(hs: seq<Happening<T>>, t: nat)
    requires t <= 32767
    ensures !Merged(hs, t)
  {
    if t > 0 { TagFallsBehind(t - 1); }
  }

  /** At the wrap it does happen: the messages of two groups are displayed as one. */
  lemma {:induction false} WrapMergesGroups<T>(hs: seq<Happening<T>>, t: nat, a: T, b: T)
    requires Sample(t) == 32767
    requires var all := hs + [Message(t, a)] + [Message(t + 1, b)] + [Delimiter(t + 1)]; Ordered(all) && Close(all)
    ensures Run(ReceivedAll(hs + [Message(t, a)] + [Message(t + 1, b)] + [Delimiter(t + 1)])).buffer ==
            Group(hs, t) + [a, b]
  {
    var xs := hs + [Message(t, a)];
    var ys := xs + [Message(t + 1, b)];
    DelimiterDisplays(ys, t + 1);
    AdmissiblePrefix(ys, Delimiter(t + 1));
    AdmissiblePrefix(xs, Message(t + 1, b));
    AdmissiblePrefix(hs, Message(t, a));
    WrapMerged(hs, t, a, b);
  }

  lemma {:induction false} WrapMerged<T>(hs: seq<Happening<T>>, t: nat, a: T, b: T)
    requires Sample(t) == 32767 && Precede(hs, Message(t, a))
    ensures var ys := hs + [Message(t, a)] + [Message(t + 1, b)];
            Merged(ys, t + 1) && Group(ys, t) + Group(ys, t + 1) == Group(hs, t) + [a, b]
  {
    var xs := hs + [Message(t, a)];
    forall k | 0 <= k < |xs| ensures xs[k].group < t + 1 {
      assert k < |hs| ==> xs[k] == hs[k];
    }
    NothingInGroup(xs, t + 1);
    GroupStep(xs, Message(t + 1, b), t + 1);
    GroupStep(xs, Message(t + 1, b), t);
    GroupStep(hs, Message(t, a), t);
  }

}
