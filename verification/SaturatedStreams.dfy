/** The round robin of inet/src/applications/netperfmeter/NetPerfMeter.cc that keeps the queue of saturated streams
    full. Frame rate and frame size of a stream do not change during a call. */
module SaturatedStreams {
  import opened Bits

  /** The streams; maxMsgSize bounds the messages a frame is split into, unless the protocol is TCP. */
  datatype Config = Config(streams: nat, rate: seq<real>, size: seq<nat>, decoupled: bool, tcp: bool, maxMsgSize: nat)

  ghost predicate Sane(cfg: Config) {
    cfg.streams > 0 && |cfg.rate| == |cfg.size| == cfg.streams && cfg.maxMsgSize > 0
  }

  // ---------- transmitFrame ----------

  /** The sizes of a frame's messages. */
  function Messages(frameSize: nat, max: nat): (r: seq<nat>)
    requires max > 0
    ensures r != [] && forall m | m in r :: m <= max
  {
    if frameSize > max then [max] + Messages(frameSize - max, max) else [frameSize]
  }

  lemma NextMessage(all: seq<nat>, messages: seq<nat>, bytes: nat, max: nat)
    requires max > 0 && all == messages + Messages(bytes, max)
    ensures if bytes > max then all == messages + [max] + Messages(bytes - max, max) else all == messages + [bytes]
  {
  }

  function Sum(s: seq<nat>): nat {
    if s == [] then 0 else s[0] + Sum(s[1..])
  }

  /** The messages of a frame carry all of it, only the last may be short of the limit, and a message without bytes is
      sent just for a frame without bytes. */
  lemma {:induction false} MessagesCarryTheFrame(frameSize: nat, max: nat)
    requires max > 0
    ensures Sum(Messages(frameSize, max)) == frameSize
    ensures forall i | 0 <= i < |Messages(frameSize, max)| - 1 :: Messages(frameSize, max)[i] == max
    ensures if frameSize > 0 then 0 !in Messages(frameSize, max) else Messages(frameSize, max) == [0]
  {
    if frameSize > max {
      MessagesCarryTheFrame(frameSize - max, max);
    }
  }

  // ---------- One call ----------

  /** A frame on a stream and the messages that carry it. */
  datatype Frame = Frame(stream: nat, messages: seq<nat>)

  /** queued holds what is queued per stream, frames the frames sent, in order. */
  datatype Send = Send(queued: seq<nat>, newly: nat, progress: bool, frames: seq<Frame>)

  /** The frame that a stream sends. */
  function FrameOf(cfg: Config, id: nat): Frame
    requires cfg.maxMsgSize > 0 && id < |cfg.size|
  {
    Frame(id, if cfg.tcp then [cfg.size[id]] else Messages(cfg.size[id], cfg.maxMsgSize))
  }

  /** The messages of a stream's frame carry its bytes; over TCP one message does. */
  lemma FrameIsCarried(cfg: Config, id: nat)
    requires Sane(cfg) && id < cfg.streams
    ensures FrameOf(cfg, id).stream == id && Sum(FrameOf(cfg, id).messages) == cfg.size[id]
    ensures if cfg.tcp then |FrameOf(cfg, id).messages| == 1
            else FrameOf(cfg, id).messages == Messages(cfg.size[id], cfg.maxMsgSize)
  {
    MessagesCarryTheFrame(cfg.size[id], cfg.maxMsgSize);
    assert [cfg.size[id]][1..] == [];
  }

  /** How many frames were sent on a stream. */
  function FramesOf(cfg: Config, s: Send, id: nat): int
    requires cfg.maxMsgSize > 0 && id < |cfg.size|
  {
    multiset(s.frames)[FrameOf(cfg, id)]
  }

  predicate Sends(cfg: Config, s: Send, contingent: nat, id: nat)
    requires id < |cfg.rate| == |cfg.size| == |s.queued|
  {
    cfg.rate[id] < 0.0000001 && (!cfg.decoupled || s.queued[id] < contingent) && cfg.size[id] >= 1
  }

  /** One stream's turn. */
  function Visited(cfg: Config, s: Send, contingent: nat, id: nat): (r: Send)
    requires id < |cfg.rate| == |cfg.size| == |s.queued| && cfg.maxMsgSize > 0
    ensures |r.queued| == |s.queued|
  {
    if !Sends(cfg, s, contingent, id) then s
    else
      Send(s.queued[id := s.queued[id] + cfg.size[id]], s.newly + cfg.size[id], true, s.frames + [FrameOf(cfg, id)])
  }

  /** Whose turn it is after k others, in a round that begins with start. */
  function Turn(cfg: Config, start: nat, k: nat): nat {
    if start + k < cfg.streams then start + k else (start + k) - cfg.streams
  }

  /** The first k turns of a round that begins with start. */
  function Turns(cfg: Config, s: Send, contingent: nat, start: nat, k: nat): (r: Send)
    requires Sane(cfg) && |s.queued| == cfg.streams && start < cfg.streams && k <= cfg.streams
    ensures |r.queued| == cfg.streams
  {
    if k == 0 then s else Visited(cfg, Turns(cfg, s, contingent, start, k - 1), contingent, Turn(cfg, start, k - 1))
  }

  function Round(cfg: Config, s: Send, contingent: nat, start: nat): (r: Send)
    requires Sane(cfg) && |s.queued| == cfg.streams && start < cfg.streams
    ensures |r.queued| == cfg.streams
  {
    Turns(cfg, s.(progress := false), contingent, start, cfg.streams)
  }

  lemma {:induction false} TurnsAdd(cfg: Config, s: Send, contingent: nat, start: nat, k: nat)
    requires Sane(cfg) && |s.queued| == cfg.streams && start < cfg.streams && k <= cfg.streams
    ensures var r := Turns(cfg, s, contingent, start, k);
            r.newly >= s.newly && (r.progress && !s.progress ==> r.newly > s.newly)
  {
    if k > 0 {
      TurnsAdd(cfg, s, contingent, start, k - 1);
    }
  }

  /** Rounds, until enough is queued or nobody sends. */
  function Rounds(cfg: Config, s: Send, contingent: nat, start: nat, available: nat): (r: Send)
    requires Sane(cfg) && |s.queued| == cfg.streams && start < cfg.streams
    ensures |r.queued| == cfg.streams
    decreases if s.newly < available then available - s.newly else 0
  {
    var t := Round(cfg, s, contingent, start);
    TurnsAdd(cfg, s.(progress := false), contingent, start, cfg.streams);
    if t.newly < available && t.progress then Rounds(cfg, t, contingent, start, available) else t
  }

  // ---------- Every stream once a round ----------

  function Position(cfg: Config, start: nat, id: nat): nat
    requires Sane(cfg) && id < cfg.streams && start < cfg.streams
  {
    if id >= start then id - start else id + cfg.streams - start
  }

  /** In a round every stream has one turn: up to then its queue is as it was, and from then on as its turn left it. */
  lemma {:induction false} OneTurnEach(cfg: Config, s: Send, contingent: nat, start: nat, k: nat, id: nat)
    requires Sane(cfg) && |s.queued| == cfg.streams && start < cfg.streams && id < cfg.streams && k <= cfg.streams
    ensures var r := Turns(cfg, s, contingent, start, k);
            var sent := Position(cfg, start, id) < k && Sends(cfg, s, contingent, id);
            && r.queued[id] == s.queued[id] + (if sent then cfg.size[id] else 0)
            && FramesOf(cfg, r, id) == FramesOf(cfg, s, id) + if sent then 1 else 0
  {
    if k > 0 {
      OneTurnEach(cfg, s, contingent, start, k - 1, id);
    }
  }

  /** Thus a whole round is one turn of every stream, in whichever order. */
  lemma RoundIsOneTurnEach(cfg: Config, s: Send, contingent: nat, start: nat, id: nat)
    requires Sane(cfg) && |s.queued| == cfg.streams && start < cfg.streams && id < cfg.streams
    ensures var r := Round(cfg, s, contingent, start);
            && r.queued[id] == s.queued[id] + (if Sends(cfg, s, contingent, id) then cfg.size[id] else 0)
            && FramesOf(cfg, r, id) == FramesOf(cfg, s, id) + if Sends(cfg, s, contingent, id) then 1 else 0
  {
    OneTurnEach(cfg, s.(progress := false), contingent, start, cfg.streams, id);
  }

  /** Streams that are saturated and not decoupled send equally many frames, others without decoupling none. */
  lemma {:induction false} EqualShares(cfg: Config, s: Send, contingent: nat, start: nat, available: nat, a: nat,
                                       b: nat)
    requires Sane(cfg) && |s.queued| == cfg.streams && start < cfg.streams && a < cfg.streams && b < cfg.streams
    requires !cfg.decoupled && cfg.rate[a] < 0.0000001 && cfg.size[a] >= 1
    ensures var r := Rounds(cfg, s, contingent, start, available);
            FramesOf(cfg, r, b) - FramesOf(cfg, s, b)
            == if cfg.rate[b] < 0.0000001 && cfg.size[b] >= 1 then FramesOf(cfg, r, a) - FramesOf(cfg, s, a) else 0
    decreases if s.newly < available then available - s.newly else 0
  {
    hide Round;
    var t := Round(cfg, s, contingent, start);
    RoundIsOneTurnEach(cfg, s, contingent, start, a);
    RoundIsOneTurnEach(cfg, s, contingent, start, b);
    RoundAdds(cfg, s, contingent, start);
    if t.newly < available && t.progress {
      EqualShares(cfg, t, contingent, start, available, a, b);
    }
  }

  lemma RoundAdds(cfg: Config, s: Send, contingent: nat, start: nat)
    requires Sane(cfg) && |s.queued| == cfg.streams && start < cfg.streams
    ensures var r := Round(cfg, s, contingent, start);
            r.newly >= s.newly && (r.progress ==> r.newly > s.newly)
  {
    TurnsAdd(cfg, s.(progress := false), contingent, start, cfg.streams);
  }

  /** A decoupled stream that has sent something ends below its contingent plus one frame; one that has not is as it
      was. */
  lemma {:induction false} WithinContingent(cfg: Config, s: Send, contingent: nat, start: nat, available: nat, id: nat)
    requires Sane(cfg) && |s.queued| == cfg.streams && start < cfg.streams && id < cfg.streams && cfg.decoupled
    ensures var r := Rounds(cfg, s, contingent, start, available);
            r.queued[id] == s.queued[id] || r.queued[id] < contingent + cfg.size[id]
    decreases if s.newly < available then available - s.newly else 0
  {
    hide Round;
    var t := Round(cfg, s, contingent, start);
    RoundIsOneTurnEach(cfg, s, contingent, start, id);
    RoundAdds(cfg, s, contingent, start);
    if t.newly < available && t.progress {
      WithinContingent(cfg, t, contingent, start, available, id);
    }
  }

  // ---------- How much is sent ----------

  lemma {:induction false} SumAppend(a: seq<nat>, b: seq<nat>)
    ensures Sum(a + b) == Sum(a) + Sum(b)
  {
    if a == [] {
      assert a + b == b;
    } else {
      SumAppend(a[1..], b);
      assert (a + b)[1..] == a[1..] + b;
    }
  }

  /** What each stream can send in a round: a frame, if it is saturated. */
  function Shares(cfg: Config): (r: seq<nat>)
    requires Sane(cfg)
    ensures |r| == cfg.streams
  {
    seq(cfg.streams, i requires 0 <= i < cfg.streams => if cfg.rate[i] < 0.0000001 then cfg.size[i] else 0)
  }

  function FromStart(cfg: Config, start: nat): (r: seq<nat>)
    requires Sane(cfg) && start < cfg.streams
    ensures |r| == cfg.streams
  {
    Shares(cfg)[start..] + Shares(cfg)[..start]
  }

  lemma {:induction false} TurnsSend(cfg: Config, s: Send, contingent: nat, start: nat, k: nat)
    requires Sane(cfg) && |s.queued| == cfg.streams && start < cfg.streams && k <= cfg.streams
    ensures Turns(cfg, s, contingent, start, k).newly <= s.newly + Sum(FromStart(cfg, start)[..k])
  {
    if k > 0 {
      TurnsSend(cfg, s, contingent, start, k - 1);
      var sizes := FromStart(cfg, start);
      assert sizes[k - 1] == Shares(cfg)[Turn(cfg, start, k - 1)];
      SumAppend(sizes[..k - 1], [sizes[k - 1]]);
      assert sizes[..k] == sizes[..k - 1] + [sizes[k - 1]];
      assert Sum([sizes[k - 1]]) == sizes[k - 1] by { SumOne(sizes[k - 1]); }
    }
  }

  lemma SumOne(x: nat)
    ensures Sum([x]) == x
  {
    assert Sum([x]) == x + Sum([]);
  }

  /** A round sends at most one frame of every saturated stream. */
  lemma RoundSends(cfg: Config, s: Send, contingent: nat, start: nat)
    requires Sane(cfg) && |s.queued| == cfg.streams && start < cfg.streams
    ensures Round(cfg, s, contingent, start).newly <= s.newly + Sum(Shares(cfg))
  {
    hide Turns, Sum;
    TurnsSend(cfg, s.(progress := false), contingent, start, cfg.streams);
    var sizes := FromStart(cfg, start);
    assert sizes[..cfg.streams] == sizes;
    var shares := Shares(cfg);
    SumAppend(shares[start..], shares[..start]);
    SumAppend(shares[..start], shares[start..]);
    assert shares[..start] + shares[start..] == shares;
  }

  /** What is sent exceeds what is available by less than one round of the saturated streams; if nothing is
      available, it is one round. */
  lemma {:induction false} LessThanARoundTooMuch(cfg: Config, s: Send, contingent: nat, start: nat, available: nat)
    requires Sane(cfg) && |s.queued| == cfg.streams && start < cfg.streams
    ensures var r := Rounds(cfg, s, contingent, start, available);
            if s.newly < available then r.newly < available + Sum(Shares(cfg))
            else r.newly <= s.newly + Sum(Shares(cfg))
    decreases if s.newly < available then available - s.newly else 0
  {
    hide Round, Sum;
    var t := Round(cfg, s, contingent, start);
    RoundSends(cfg, s, contingent, start);
    RoundAdds(cfg, s, contingent, start);
    if t.newly < available && t.progress {
      LessThanARoundTooMuch(cfg, t, contingent, start, available);
    }
  }

  /** Nothing more is sent only when enough has been, or when no stream may send. */
  lemma {:induction false} StopsForAReason(cfg: Config, s: Send, contingent: nat, start: nat, available: nat, id: nat)
    requires Sane(cfg) && |s.queued| == cfg.streams && start < cfg.streams && id < cfg.streams
    ensures var r := Rounds(cfg, s, contingent, start, available);
            || r.newly >= available
            || cfg.rate[id] >= 0.0000001 || cfg.size[id] == 0 || (cfg.decoupled && r.queued[id] >= contingent)
    decreases if s.newly < available then available - s.newly else 0
  {
    hide Round;
    var t := Round(cfg, s, contingent, start);
    RoundAdds(cfg, s, contingent, start);
    if t.newly < available {
      if t.progress {
        StopsForAReason(cfg, t, contingent, start, available, id);
      } else {
        IdleRound(cfg, s.(progress := false), contingent, start, cfg.streams);
        RoundIsOneTurnEach(cfg, s, contingent, start, id);
        IdleIsSame(cfg, s, contingent, start);
      }
    }
  }

  /** A stream sends in a call if and only if it is saturated, has frames that are not empty and, if the streams are
      decoupled, has room in its contingent at first; it counts as queued what it sends. */
  lemma {:induction false} WhoSends(cfg: Config, s: Send, contingent: nat, start: nat, available: nat, id: nat)
    requires Sane(cfg) && |s.queued| == cfg.streams && start < cfg.streams && id < cfg.streams
    ensures var r := Rounds(cfg, s, contingent, start, available);
            var n := FramesOf(cfg, r, id) - FramesOf(cfg, s, id);
            && n >= 0 && r.queued[id] == s.queued[id] + n * cfg.size[id]
            && (n > 0 <==>
                 && cfg.rate[id] < 0.0000001 && cfg.size[id] >= 1
                 && (cfg.decoupled ==> s.queued[id] < contingent))
    decreases if s.newly < available then available - s.newly else 0
  {
    hide Round, FramesOf;
    var t := Round(cfg, s, contingent, start);
    RoundIsOneTurnEach(cfg, s, contingent, start, id);
    RoundAdds(cfg, s, contingent, start);
    if t.newly < available && t.progress {
      WhoSends(cfg, t, contingent, start, available, id);
      var n := FramesOf(cfg, Rounds(cfg, t, contingent, start, available), id) - FramesOf(cfg, t, id);
      assert (n + 1) * cfg.size[id] == n * cfg.size[id] + cfg.size[id];
    }
  }

  lemma {:induction false} IdleRound(cfg: Config, s: Send, contingent: nat, start: nat, k: nat)
    requires Sane(cfg) && |s.queued| == cfg.streams && start < cfg.streams && k <= cfg.streams && !s.progress
    ensures !Turns(cfg, s, contingent, start, k).progress ==> Turns(cfg, s, contingent, start, k) == s
  {
    if k > 0 {
      IdleRound(cfg, s, contingent, start, k - 1);
    }
  }

  lemma IdleIsSame(cfg: Config, s: Send, contingent: nat, start: nat)
    requires Sane(cfg) && |s.queued| == cfg.streams && start < cfg.streams
    ensures var r := Round(cfg, s, contingent, start);
            !r.progress ==> r == s.(progress := false)
  {
    IdleRound(cfg, s.(progress := false), contingent, start, cfg.streams);
  }

  /** The bytes of some frames. */
  function Carried(frames: seq<Frame>): nat {
    if frames == [] then 0 else Carried(frames[..|frames| - 1]) + Sum(frames[|frames| - 1].messages)
  }

  lemma FrameCarriesItsSize(cfg: Config, frames: seq<Frame>, id: nat)
    requires cfg.maxMsgSize > 0 && id < |cfg.size|
    ensures Carried(frames + [FrameOf(cfg, id)]) == Carried(frames) + cfg.size[id]
  {
    assert (frames + [FrameOf(cfg, id)])[..|frames|] == frames;
    SumOne(cfg.size[id]);
    MessagesCarryTheFrame(cfg.size[id], cfg.maxMsgSize);
  }

  lemma {:induction false} TurnsCarry(cfg: Config, s: Send, contingent: nat, start: nat, k: nat)
    requires Sane(cfg) && |s.queued| == cfg.streams && start < cfg.streams && k <= cfg.streams
    ensures var r := Turns(cfg, s, contingent, start, k);
            Carried(r.frames) - r.newly == Carried(s.frames) - s.newly
  {
    hide Carried, FrameOf;
    if k > 0 {
      TurnsCarry(cfg, s, contingent, start, k - 1);
      FrameCarriesItsSize(cfg, Turns(cfg, s, contingent, start, k - 1).frames, Turn(cfg, start, k - 1));
    }
  }

  /** What counts as newly queued is what the messages sent carry. */
  lemma {:induction false} CountedIsCarried(cfg: Config, s: Send, contingent: nat, start: nat, available: nat)
    requires Sane(cfg) && |s.queued| == cfg.streams && start < cfg.streams
    ensures var r := Rounds(cfg, s, contingent, start, available);
            Carried(r.frames) - r.newly == Carried(s.frames) - s.newly
    decreases if s.newly < available then available - s.newly else 0
  {
    hide Carried, Turns;
    var t := Round(cfg, s, contingent, start);
    TurnsCarry(cfg, s.(progress := false), contingent, start, cfg.streams);
    RoundAdds(cfg, s, contingent, start);
    if t.newly < available && t.progress {
      CountedIsCarried(cfg, t, contingent, start, available);
    }
  }

  // ---------- The sender ----------

  /** SCTPSendQueueAbated: what is queued per stream, and the limit of the queue. */
  datatype Abated = Unknown | Abated(queuedFor: seq<nat>, bytesLimit: nat)

  class NetPerfMeter {
    const cfg: Config
    var activeMode: bool
    var sendingAllowed: bool
    var lastStreamID: nat
    var sent: seq<Frame>

    ghost predicate Valid()
      reads this
    {
      Sane(cfg) && lastStreamID < cfg.streams
    }

    constructor (cfg: Config)
      requires Sane(cfg)
      ensures Valid() && this.cfg == cfg && sent == []
    {
      this.cfg := cfg;
      activeMode, sendingAllowed, lastStreamID, sent := true, true, cfg.streams - 1, [];
    }

    /** transmitFrame */
    method TransmitFrame(frameSize: nat, streamID: nat) returns (newlyQueuedBytes: nat)
      requires Valid()
      modifies `sent
      ensures newlyQueuedBytes == frameSize
      ensures sent ==
                old(sent) + [Frame(streamID, if cfg.tcp then [frameSize] else Messages(frameSize, cfg.maxMsgSize))]
    {
      hide Messages;
      if cfg.tcp {
        sent := sent + [Frame(streamID, [frameSize])];
        return frameSize;
      }
      newlyQueuedBytes := 0;
      var messages: seq<nat> := [];
      var bytesToSend: nat := frameSize;
      ghost var all := Messages(frameSize, cfg.maxMsgSize);
      var again := true;
      while again
        invariant newlyQueuedBytes + bytesToSend == frameSize && (!again ==> bytesToSend == 0)
        invariant all == if again then messages + Messages(bytesToSend, cfg.maxMsgSize) else messages
        invariant sent == old(sent)
        decreases again, bytesToSend
      {
        NextMessage(all, messages, bytesToSend, cfg.maxMsgSize);
        var msgSize := if bytesToSend > cfg.maxMsgSize then cfg.maxMsgSize else bytesToSend;
        messages := messages + [msgSize];
        newlyQueuedBytes := newlyQueuedBytes + msgSize;
        bytesToSend := bytesToSend - msgSize;
        again := bytesToSend > 0;
      }
      sent := sent + [Frame(streamID, messages)];
    }

    /** One round of sendDataOfSaturatedStreams. */
    method PerformRound(queued: array<nat>, newly: nat, ghost before: bool, contingent: nat)
      returns (newlyQueued: nat, progress: bool)
      requires Valid() && queued.Length == cfg.streams
      modifies `sent, `lastStreamID, queued
      ensures Valid() && lastStreamID == old(lastStreamID)
      ensures Send(queued[..], newlyQueued, progress, sent)
              == Round(cfg, Send(old(queued[..]), newly, before, old(sent)), contingent, lastStreamID)
    {
      hide Visited, Turns;
      newlyQueued, progress := newly, false;
      var start, k := lastStreamID, 0;
      ghost var first := Send(queued[..], newly, false, sent);
      TurnsStep(cfg, first, contingent, start, 0);
      while k == 0 || lastStreamID != start
        invariant 0 <= k <= cfg.streams && Valid()
        invariant lastStreamID == if k == cfg.streams then start else Turn(cfg, start, k)
        invariant Send(queued[..], newlyQueued, progress, sent) == Turns(cfg, first, contingent, start, k)
        decreases cfg.streams - k
      {
        TurnsStep(cfg, first, contingent, start, k);
        newlyQueued, progress := TakeTurn(queued, newlyQueued, progress, contingent);
        TurnStep(cfg, start, k);
        lastStreamID := (lastStreamID + 1) % cfg.streams;
        k := k + 1;
      }
    }

    /** The turn of stream lastStreamID. */
    method TakeTurn(queued: array<nat>, newly: nat, before: bool, contingent: nat)
      returns (newlyQueued: nat, progress: bool)
      requires Valid() && queued.Length == cfg.streams
      modifies `sent, queued
      ensures Send(queued[..], newlyQueued, progress, sent)
              == Visited(cfg, Send(old(queued[..]), newly, before, old(sent)), contingent, lastStreamID)
    {
      newlyQueued, progress := newly, before;
      var id := lastStreamID;
      if cfg.rate[id] < 0.0000001 {
        if !cfg.decoupled || queued[id] < contingent {
          var frameSize := cfg.size[id];
          if frameSize >= 1 {
            var bytes := TransmitFrame(frameSize, id);
            newlyQueued := newlyQueued + bytes;
            queued[id] := queued[id] + bytes;
            progress := true;
          }
        }
      }
    }

    /** What sendDataOfSaturatedStreams takes for the current occupation of the queue. */
    method Occupation(available: nat, indication: Abated) returns (queued: array<nat>, contingent: nat)
      requires Valid() && (indication.Abated? ==> cfg.streams <= |indication.queuedFor|)
      ensures fresh(queued) && queued.Length == cfg.streams && queued[..] == QueuedAtFirst(cfg, indication)
      ensures contingent == Contingent(cfg, available, indication)
    {
      queued := new nat[cfg.streams](_ => 0);
      if indication.Unknown? {
        contingent := available / cfg.streams;
      } else {
        for i := 0 to cfg.streams
          invariant queued[..i] == indication.queuedFor[..i]
        {
          queued[i] := indication.queuedFor[i];
        }
        contingent := indication.bytesLimit / cfg.streams;
      }
    }

    /** sendDataOfSaturatedStreams */
    method SendDataOfSaturatedStreams(available: nat, indication: Abated)
      requires Valid() && (indication.Abated? ==> cfg.streams <= |indication.queuedFor|)
      modifies `sent, `lastStreamID
      ensures Valid()
      ensures !activeMode || !sendingAllowed ==> sent == old(sent) && lastStreamID == old(lastStreamID)
      ensures activeMode && sendingAllowed ==>
        && lastStreamID == (old(lastStreamID) + 1) % cfg.streams
        && sent
           == Rounds(cfg, Send(QueuedAtFirst(cfg, indication), 0, true, old(sent)),
                     Contingent(cfg, available, indication), lastStreamID, available).frames
    {
      hide Round, QueuedAtFirst, Contingent;
      if !activeMode {
        return;
      }
      var queued, contingent := Occupation(available, indication);
      if !sendingAllowed {
        return;
      }
      lastStreamID := (lastStreamID + 1) % cfg.streams;
      ghost var start := lastStreamID;
      var newly: nat, progress := 0, true;
      ghost var goal := Rounds(cfg, Send(queued[..], newly, progress, sent), contingent, start, available);
      var again := true;
      while again
        invariant Valid() && lastStreamID == start
        invariant var s := Send(queued[..], newly, progress, sent);
                  goal == if again then Rounds(cfg, s, contingent, start, available) else s
        decreases again, if newly < available then available - newly else 0
      {
        RoundAdds(cfg, Send(queued[..], newly, progress, sent), contingent, start);
        assert |queued[..]| == cfg.streams;
        newly, progress := PerformRound(queued, newly, progress, contingent);
        again := newly < available && progress;
      }
    }
  }

  lemma TurnsStep(cfg: Config, s: Send, contingent: nat, start: nat, k: nat)
    requires Sane(cfg) && |s.queued| == cfg.streams && start < cfg.streams && k <= cfg.streams
    ensures Turns(cfg, s, contingent, start, 0) == s
    ensures k < cfg.streams ==>
              Turns(cfg, s, contingent, start, k + 1)
              == Visited(cfg, Turns(cfg, s, contingent, start, k), contingent, Turn(cfg, start, k))
  {
  }

  lemma TurnStep(cfg: Config, start: nat, k: nat)
    requires Sane(cfg) && start < cfg.streams && k < cfg.streams
    ensures (Turn(cfg, start, k) + 1) % cfg.streams == if k + 1 == cfg.streams then start else Turn(cfg, start, k + 1)
  {
    var next := Turn(cfg, start, k) + 1;
    if next < cfg.streams {
      DivModUnique(next, cfg.streams, 0, next);
    } else {
      DivModUnique(next, cfg.streams, 1, 0);
    }
  }

  /** What counts as queued before the first round: nothing, if the queue's occupation is not known. */
  function QueuedAtFirst(cfg: Config, indication: Abated): seq<nat>
    requires indication.Abated? ==> cfg.streams <= |indication.queuedFor|
  {
    if indication.Unknown? then seq(cfg.streams, _ => 0) else indication.queuedFor[..cfg.streams]
  }

  function Contingent(cfg: Config, available: nat, indication: Abated): nat
    requires cfg.streams > 0
  {
    (if indication.Unknown? then available else indication.bytesLimit) / cfg.streams
  }

  /** The contingents of all streams together stay within what may be queued, with less than a byte a stream to
      spare. */
  lemma ContingentsFit(cfg: Config, available: nat, indication: Abated)
    requires cfg.streams > 0
    ensures var limit := if indication.Unknown? then available else indication.bytesLimit;
            var all := cfg.streams * Contingent(cfg, available, indication);
            all <= limit < all + cfg.streams
  {
    var limit := if indication.Unknown? then available else indication.bytesLimit;
    assert limit == cfg.streams * (limit / cfg.streams) + limit % cfg.streams;
  }

  /** Before the last frame that a decoupled stream sends in a call, its share of what may be queued was not used up by
      what was queued for it at first and has been sent since; if the former is not known, it counts as nothing. */
  lemma WithinShare(cfg: Config, available: nat, indication: Abated, sent: seq<Frame>, start: nat, id: nat)
    requires Sane(cfg) && start < cfg.streams && id < cfg.streams && cfg.decoupled
    requires indication.Abated? ==> cfg.streams <= |indication.queuedFor|
    ensures var s := Send(QueuedAtFirst(cfg, indication), 0, true, sent);
            var r := Rounds(cfg, s, Contingent(cfg, available, indication), start, available);
            var n := FramesOf(cfg, r, id) - FramesOf(cfg, s, id);
            n > 0 ==>
              var before := (n - 1) * cfg.size[id];
              if indication.Unknown? then cfg.streams * (before + 1) <= available
              else cfg.streams * (indication.queuedFor[id] + before + 1) <= indication.bytesLimit
  {
    var s := Send(QueuedAtFirst(cfg, indication), 0, true, sent);
    var contingent := Contingent(cfg, available, indication);
    var r := Rounds(cfg, s, contingent, start, available);
    var n := FramesOf(cfg, r, id) - FramesOf(cfg, s, id);
    ContingentsFit(cfg, available, indication);
    hide Rounds, FramesOf, Contingent;
    WhoSends(cfg, s, contingent, start, available, id);
    WithinContingent(cfg, s, contingent, start, available, id);
    if n > 0 {
      var limit := if indication.Unknown? then available else indication.bytesLimit;
      ShareLeft(cfg.streams, s.queued[id], n, cfg.size[id], contingent, limit);
    }
  }

  lemma ShareLeft(streams: nat, queued: nat, n: nat, size: nat, contingent: nat, limit: nat)
    requires n > 0 && size > 0 && streams * contingent <= limit
    requires queued + n * size == queued || queued + n * size < contingent + size
    ensures streams * (queued + (n - 1) * size + 1) <= limit
  {
    var before := (n - 1) * size;
    assert n * size == before + size;
    assert before >= 0;
    TimesAtMost(streams, queued + before + 1, contingent);
  }

  lemma TimesAtMost(k: nat, a: nat, b: nat)
    requires a <= b
    ensures k * a <= k * b
  {
  }
}
