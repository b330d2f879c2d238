/**
 The processing pipeline: one deframer sees every datagram in order and is reset when the receiver
 has fallen behind.  What holds of the deframer over whole runs is stated here for runs that mix
 datagrams and lags in any way.
 */
module Pipeline {
  import opened Accounting
  import opened Channels
  import opened Deframing
  import opened DeframerObjects
  import opened Octets
  import opened Provenance
  import opened VirtualChannels
  import MarkerSearch

  /** What the receiver hands over: a datagram, or the news that some were missed. */
  datatype Event = Datagram(bytes: Octets) | Lagged(missed: nat)

  /** The loop of `run`, with a deframer. */
  function HandleEvents(cfg: Config, st: State, events: seq<Event>): (r: (State, seq<Packet>))
    requires ValidState(st)
    ensures ValidState(r.0)
    decreases |events|
  {
    if events == [] then (st, [])
    else
      match events[0]
      case Datagram(d) =>
        var p := Deframing.Push(cfg, st, d);
        var r := HandleEvents(cfg, p.0, events[1..]);
        (r.0, p.1 + r.1)
      case Lagged(_) => HandleEvents(cfg, Deframing.Reset(st), events[1..])
  }

  function Missed(events: seq<Event>): nat {
    if events == [] then 0 else (if events[0].Lagged? then events[0].missed else 0) + Missed(events[1..])
  }

  /** `run`: every packet is published in the order it was extracted, and missed datagrams are counted. */
  method Run(deframer: TmDeframer, events: seq<Event>) returns (published: seq<Packet>, lagged: nat)
    requires deframer.Valid()
    modifies deframer, deframer.vcs, deframer.stats
    ensures deframer.Valid()
    ensures (deframer.StateValue(), published) == HandleEvents(deframer.cfg, old(deframer.StateValue()), events)
    ensures lagged == Missed(events)
  {
    hide Deframing.Push, Deframing.Reset;
    ghost var cfg, st := deframer.cfg, deframer.StateValue();
    published, lagged := [], 0;
    var i := 0;
    ghost var all := HandleEvents(cfg, st, events);
    assert events[0..] == events && [] + all.1 == all.1;
    while i < |events|
      invariant deframer.Valid() && i <= |events|
      invariant var r := HandleEvents(cfg, deframer.StateValue(), events[i..]); all == (r.0, published + r.1)
      invariant lagged + Missed(events[i..]) == Missed(events)
    {
      assert events[i..][1..] == events[i + 1..];
      match events[i] {
        case Datagram(d) =>
          var packets := deframer.Push(d);
          ghost var r := HandleEvents(cfg, deframer.StateValue(), events[i + 1..]);
          assert published + (packets + r.1) == published + packets + r.1;
          published := published + packets;
        case Lagged(n) =>
          lagged := lagged + n;
          deframer.Reset();
      }
      i := i + 1;
    }
    assert published + [] == published;
  }

  /** Over every run, what the deframer holds stays bounded and what it publishes is sound. */
  lemma {:induction false} EveryRunIsBoundedAndSound(cfg: Config, st: State, events: seq<Event>)
    requires Bounded(cfg, st)
    ensures Bounded(cfg, HandleEvents(cfg, st, events).0) && AllSound(HandleEvents(cfg, st, events).1)
    decreases |events|
  {
    hide Bounded, Sound, Deframing.Push, Deframing.Reset;
    assert ValidState(st) by { BoundedIsValid(cfg, st); }
    if events != [] {
      match events[0]
      case Datagram(d) =>
        PushKeepsBounds(cfg, st, d);
        EveryRunIsBoundedAndSound(cfg, Deframing.Push(cfg, st, d).0, events[1..]);
      case Lagged(_) =>
        ResetIsBounded(cfg, st);
        EveryRunIsBoundedAndSound(cfg, Deframing.Reset(st), events[1..]);
    }
  }

  lemma BoundedIsValid(cfg: Config, st: State)
    requires Bounded(cfg, st)
    ensures ValidState(st)
  {
  }

  function AsEvents(datagrams: seq<Octets>): seq<Event> {
    if datagrams == [] then [] else [Datagram(datagrams[0])] + AsEvents(datagrams[1..])
  }

  lemma {:induction false} EventsSplit(cfg: Config, st: State, a: seq<Event>, b: seq<Event>)
    requires ValidState(st)
    ensures var r := HandleEvents(cfg, st, a);
            var s := HandleEvents(cfg, r.0, b);
            HandleEvents(cfg, st, a + b) == (s.0, r.1 + s.1)
    decreases |a|
  {
    hide Deframing.Push;
    if a == [] {
      assert a + b == b;
      assert [] + HandleEvents(cfg, st, b).1 == HandleEvents(cfg, st, b).1;
    } else {
      assert (a + b)[1..] == a[1..] + b;
      match a[0]
      case Datagram(d) =>
        var p := Deframing.Push(cfg, st, d);
        EventsSplit(cfg, p.0, a[1..], b);
        var r := HandleEvents(cfg, p.0, a[1..]);
        assert p.1 + (r.1 + HandleEvents(cfg, r.0, b).1) == p.1 + r.1 + HandleEvents(cfg, r.0, b).1;
      case Lagged(_) =>
        EventsSplit(cfg, Deframing.Reset(st), a[1..], b);
    }
  }

  lemma {:induction false} DatagramEvents(cfg: Config, st: State, datagrams: seq<Octets>)
    requires ValidState(st)
    ensures HandleEvents(cfg, st, AsEvents(datagrams)) == PushAll(cfg, st, datagrams)
    decreases |datagrams|
  {
    hide Deframing.Push;
    if datagrams != [] {
      assert AsEvents(datagrams)[1..] == AsEvents(datagrams[1..]);
      DatagramEvents(cfg, Deframing.Push(cfg, st, datagrams[0]).0, datagrams[1..]);
    }
  }

  /**
   No mixing across a lag: whatever came before, the packets published after a lag are made of
   octets received after it alone, by a deframer as good as new.
   */
  lemma AfterALagOnlyNewOctets(cfg: Config, st: State, before: seq<Event>, missed: nat, datagrams: seq<Octets>, v: nat)
      returns (tail: seq<Packet>, spans: seq<Span>)
    requires ValidConfig(cfg) && ValidState(st) && v < CHANNELS
    ensures HandleEvents(cfg, st, before + [Lagged(missed)] + AsEvents(datagrams)).1
        == HandleEvents(cfg, st, before).1 + tail
    ensures var parts := PartsOn(cfg, FramesIn(cfg, datagrams), v);
            && Located(Received(parts), spans, OnChannel(tail, v), 0, |Received(parts)|)
            && forall x: nat :: Barrier(parts, x) ==> Clear(spans, x)
  {
    hide Deframing.Push, Located, PushAll, FramesIn, PartsOn, OnChannel, Received, Barrier, Clear;
    var r := HandleEvents(cfg, st, before);
    var fresh' := Deframing.Reset(r.0);
    EventsSplit(cfg, st, before, [Lagged(missed)] + AsEvents(datagrams));
    assert before + [Lagged(missed)] + AsEvents(datagrams) == before + ([Lagged(missed)] + AsEvents(datagrams));
    assert ([Lagged(missed)] + AsEvents(datagrams))[1..] == AsEvents(datagrams);
    DatagramEvents(cfg, fresh', datagrams);
    tail := PushAll(cfg, fresh', datagrams).1;
    spans := EmittedAreStretches(cfg, fresh', datagrams, v);
  }
}
