/**
 * The receive interrupt, readByte, clearReceiveBuffer and the callback table of
 * src/sequans_controller.cpp over the 512-byte ring, each proved against one step of the model. A byte
 * arrives only while the ring holds fewer than 512, and readByte is not interrupted between its test and
 * its critical section. A callback does not touch the receive path.
 */
module RxPath {
  import opened Bytes
  import opened CStrings
  import opened UrcTable
  import opened UrcParser
  import opened RxModel

  /** Where the i-th oldest byte of the ring is. */
  function Slot(tail: nat, i: nat): (s: nat)
    ensures s < RX_SIZE
  {
    (tail + 1 + i) % RX_SIZE
  }

  lemma SlotsDiffer(tail: nat, i: nat, j: nat)
    requires i < j < RX_SIZE
    ensures Slot(tail, i) != Slot(tail, j)
  {
  }

  lemma SlotNext(tail: nat, i: nat)
    ensures Slot((tail + 1) % RX_SIZE, i) == Slot(tail, i + 1)
    ensures Slot(tail, i) == ((tail + i) % RX_SIZE + 1) % RX_SIZE
  {
    hide Slot;
    SlotAfterWrap(tail, i);
    SlotAfterHead(tail, i);
  }

  lemma SlotAfterWrap(tail: nat, i: nat)
    ensures Slot((tail + 1) % RX_SIZE, i) == Slot(tail, i + 1)
  {
    var t := tail + 1;
    var q, r := t / RX_SIZE, t % RX_SIZE;
    assert t + 1 + i == r + 1 + i + 512 * q;
  }

  lemma SlotAfterHead(tail: nat, i: nat)
    ensures Slot(tail, i) == ((tail + i) % RX_SIZE + 1) % RX_SIZE
  {
    var t := tail + i;
    var q, r := t / RX_SIZE, t % RX_SIZE;
    assert t + 1 == r + 1 + 512 * q;
  }

  /** The index wraps the way a uint16_t masked with 511 does. */
  lemma Rewind(tail: nat, num: nat, k: nat)
    requires k <= num
    ensures ((tail + num) % RX_SIZE - k) % RX_SIZE == (tail + (num - k)) % RX_SIZE
  {
  }

  class Controller {
    const rxBuffer: array<byte>
    var head: nat
    var tail: nat
    var num: nat
    var state: State
    const idBuffer: array<byte>
    var idLength: nat
    const dataBuffer: array<byte>
    var dataLength: nat
    var index: nat
    var callback: Option<nat>
    const urcs: array<Urc>
    ghost var rx: Rx

    ghost predicate Arrays() {
      && rxBuffer.Length == RX_SIZE && idBuffer.Length == ID_SIZE && dataBuffer.Length == DATA_SIZE && urcs.Length == SLOTS
      && rxBuffer != idBuffer && rxBuffer != dataBuffer && idBuffer != dataBuffer
    }

    /** The ring holds these received bytes, oldest first. */
    ghost predicate Holds(received: seq<byte>, queue: seq<nat>)
      requires Arrays()
      reads this`head, this`tail, this`num, rxBuffer
    {
      && head == (tail + num) % RX_SIZE && tail < RX_SIZE && num == |queue| <= RX_SIZE
      && (forall i :: 0 <= i < num ==> queue[i] < |received|)
      && forall i :: 0 <= i < num ==> rxBuffer[Slot(tail, i)] == received[queue[i]]
    }

    /** The parser's variables. */
    ghost predicate Parses(p: Parser)
      requires Arrays()
      reads this`state, this`index, this`callback, this`idLength, this`dataLength, idBuffer, dataBuffer
    {
      && state == p.state && index == p.index && callback == p.callback
      && idLength == |p.id| <= ID_SIZE && idBuffer[..idLength] == p.id
      && dataLength == |p.data| <= DATA_SIZE && dataBuffer[..dataLength] == p.data
    }

    ghost predicate Valid()
      reads this, rxBuffer, idBuffer, dataBuffer, urcs
    {
      && Arrays() && Inv(rx) && Holds(rx.received, rx.queue) && Parses(rx.parser) && urcs[..] == rx.table
    }

    constructor ()
      ensures Valid() && rx == Init(Empty())
      ensures fresh(rxBuffer) && fresh(idBuffer) && fresh(dataBuffer) && fresh(urcs)
    {
      rxBuffer := new byte[RX_SIZE](_ => 0);
      idBuffer := new byte[ID_SIZE](_ => 0);
      dataBuffer := new byte[DATA_SIZE](_ => 0);
      var none := Urc(seq(ID_SIZE, _ => 0), 0, false, None);
      urcs := new Urc[SLOTS](_ => none);
      head, tail, num, state, idLength, dataLength, index, callback := 0, 0, 0, NotParsing, 0, 0, 0, None;
      rx := Init(Empty());
      new;
      InitInv(Empty());
      assert urcs[..] == Empty();
    }

    /** clearReceiveBuffer. */
    method ClearReceiveBuffer()
      requires Valid()
      modifies this
      ensures Valid() && rx == Cleared(old(rx))
    {
      hide Inv;
      num := 0;
      tail := head;
      ClearInv(rx);
      rx := Cleared(rx);
    }

    /** The test and the critical section of readByte: the slot of the oldest byte, or -1. */
    method TakeSlot() returns (slot: int)
      requires Valid()
      modifies this`tail, this`num, this`rx
      ensures Valid() && rx == ReadOne(old(rx))
      ensures old(rx).queue == [] ==> slot == -1
      ensures old(rx).queue != [] ==>
                slot == tail && num < RX_SIZE && rxBuffer[tail] == rx.received[old(rx).queue[0]]
    {
      hide Inv, Slot;
      if num == 0 {
        return -1;
      }
      var next := (tail + 1) % RX_SIZE;
      NextTail(tail, num);
      ReadInv(rx);
      tail := next;
      num := num - 1;
      rx := ReadOne(rx);
      slot := next;
    }

    /**
     * readByte. The byte is loaded after the critical section, so any number of bytes may arrive before:
     * what is returned is the byte that was taken off the ring, or the last one that filled it since.
     */
    method ReadByte(arrivals: seq<byte>) returns (c: int)
      requires Valid() && Inv(ReadOne(rx)) && Arrivable(ReadOne(rx), arrivals)
      modifies this, rxBuffer, idBuffer, dataBuffer
      ensures Valid()
      ensures old(rx).queue == [] ==> c == -1 && rx == old(rx)
      ensures old(rx).queue != [] ==>
                && Inv(ReadOne(old(rx)))
                && rx == Run(ReadOne(old(rx)), Receives(arrivals))
                && var at := Loaded(ReadOne(old(rx)), old(rx).queue[0], arrivals);
                   at < |rx.received| && c == rx.received[at] as int
    {
      hide Inv, Slot, Received, Arrivable, Loaded, Run, Receives;
      ghost var start, oldest := ReadOne(rx), if rx.queue == [] then 0 else rx.queue[0];
      var slot := TakeSlot();
      if slot < 0 {
        return -1;
      }
      OldestReceived(old(rx));
      ghost var now: nat := oldest;
      NothingArrived(start, oldest);
      assert arrivals[0..] == arrivals;
      for i := 0 to |arrivals|
        invariant Valid() && slot == tail && now < |rx.received| && rxBuffer[tail] == rx.received[now]
        invariant Inv(rx) && Arrivable(rx, arrivals[i..])
        invariant Loaded(rx, now, arrivals[i..]) == Loaded(start, oldest, arrivals)
        invariant Run(rx, Receives(arrivals[i..])) == Run(start, Receives(arrivals))
      {
        assert arrivals[i..][0] == arrivals[i] && arrivals[i..][1..] == arrivals[i + 1..];
        NextArrival(rx, now, arrivals[i..]);
        if num + 1 == RX_SIZE {
          now := |rx.received|;
        }
        var fired := Receive(arrivals[i]);
      }
      assert arrivals[|arrivals|..] == [];
      NothingArrived(rx, now);
      c := rxBuffer[slot];
    }

    /**
     * USART1_RXC_vect. Data of exactly 384 bytes would be terminated outside its buffer. The callback that
     * the handler calls is returned with its data.
     */
    method Receive(b: byte) returns (fired: Option<Fire>)
      requires Valid() && num < RX_SIZE
      requires !(state.ParsingData? && EndsData(b) && dataLength == DATA_SIZE)
      modifies this, rxBuffer, idBuffer, dataBuffer
      ensures Valid() && rx == Received(old(rx), b)
      ensures rx.fires == old(rx.fires) + if fired.Some? then [fired.value] else []
      ensures tail == old(tail) && rxBuffer[tail] == if old(num) + 1 == RX_SIZE then b else old(rxBuffer[tail])
    {
      hide Inv, Received, Next, EraseCount, Slot, Bounded;
      ReceivedInv(rx, b);
      ReceivedParts(rx, b);
      Push(b);
      fired := Parse(b);
      rx := Received(rx, b);
    }

    /** The new byte becomes the newest of the ring. */
    method Push(b: byte)
      requires Arrays() && Holds(rx.received, rx.queue) && num < RX_SIZE
      modifies this`head, this`num, rxBuffer
      ensures Holds(rx.received + [b], rx.queue + [|rx.received|])
      ensures rxBuffer[tail] == if old(num) + 1 == RX_SIZE then b else old(rxBuffer[tail])
    {
      hide Slot, Inv;
      NextSlot(tail, num);
      head := (head + 1) % RX_SIZE;
      rxBuffer[head] := b;
      num := num + 1;
    }

    /** Takes the newest k bytes off the ring. */
    method Erase(k: nat, ghost received: seq<byte>, ghost queue: seq<nat>)
      requires Arrays() && Holds(received, queue) && k <= num
      modifies this`head, this`num
      ensures Holds(received, queue[..|queue| - k])
    {
      hide Slot;
      Rewind(tail, num, k);
      head := (head - k) % RX_SIZE;
      num := num - k;
    }

    /** The state before the switch of the interrupt handler: the byte is in the ring already. */
    ghost predicate Pushed(b: byte)
      reads this, rxBuffer, idBuffer, dataBuffer, urcs
    {
      && Arrays() && Parses(rx.parser) && Bounded(rx.parser) && urcs[..] == rx.table && TableShape(rx.table)
      && Holds(rx.received + [b], rx.queue + [|rx.received|])
    }

    /** The state after it. */
    ghost predicate Parsed(b: byte, fired: Option<Fire>)
      reads this, rxBuffer, idBuffer, dataBuffer, urcs
    {
      && Bounded(rx.parser) && TableShape(rx.table) && Arrays()
      && var (next, action) := Next(rx.parser, rx.table, b);
      var pushed := rx.queue + [|rx.received|];
      && Bounded(next)
      && Parses(next)
      && Holds(rx.received + [b], pushed[..|pushed| - EraseCount(rx.parser, next, action, rx.table, |pushed|)])
      && fired == (if action.Ended? then action.fire else None)
    }

    /** The switch of the interrupt handler. */
    method Parse(b: byte) returns (fired: Option<Fire>)
      requires Pushed(b)
      requires !(state.ParsingData? && EndsData(b) && dataLength == DATA_SIZE)
      modifies this`head, this`num, this`state, this`idLength, this`dataLength, this`index, this`callback, idBuffer, dataBuffer
      ensures Parsed(b, fired)
    {
      hide Slot, First, Next, EraseCount, Bounded, TableShape, Holds, Parsed;
      fired := None;
      match state {
        case NotParsing => WhenNotParsing(b);
        case Evaluating => WhenEvaluating(b);
        case ParsingIdentifier => WhenParsingIdentifier(b);
        case ParsingData => fired := WhenParsingData(b);
      }
    }

    method WhenNotParsing(b: byte)
      requires Pushed(b) && state.NotParsing?
      modifies this`state, this`idLength
      ensures Parsed(b, None)
    {
      hide First, Holds, Slot;
      if b == PLUS {
        idLength := 0;
        state := Evaluating;
      }
      WholeQueue(rx.queue + [|rx.received|]);
    }

    method WhenEvaluating(b: byte)
      requires Pushed(b) && state.Evaluating?
      modifies this`state, this`idLength, idBuffer
      ensures Parsed(b, None)
    {
      hide First, Slot;
      if IsDigit(b) {
        state := NotParsing;
      } else {
        idBuffer[idLength] := b;
        idLength := idLength + 1;
        state := ParsingIdentifier;
      }
      WholeQueue(rx.queue + [|rx.received|]);
    }

    method WhenParsingIdentifier(b: byte)
      requires Pushed(b) && state.ParsingIdentifier?
      modifies this`head, this`num, this`state, this`idLength, this`dataLength, this`index, this`callback, idBuffer
      ensures Parsed(b, None)
    {
      hide First, Slot, EraseCount;
      if EndsId(b) {
        EndIdentifier(b);
        return;
      }
      InsideId(rx.parser, rx.table, b);
      if idLength == ID_SIZE {
        state := NotParsing;
      } else {
        idBuffer[idLength] := b;
        idLength := idLength + 1;
      }
      NoErase(rx.parser, Next(rx.parser, rx.table, b).0, rx.table, |rx.queue| + 1);
      WholeQueue(rx.queue + [|rx.received|]);
    }

    method WhenParsingData(b: byte) returns (fired: Option<Fire>)
      requires Pushed(b) && state.ParsingData?
      requires !(EndsData(b) && dataLength == DATA_SIZE)
      modifies this`head, this`num, this`state, this`dataLength, this`callback, dataBuffer
      ensures Parsed(b, fired)
    {
      hide First, Slot, EraseCount;
      if EndsData(b) {
        fired := EndData(b);
        return;
      }
      fired := None;
      if dataLength == DATA_SIZE {
        state := NotParsing;
      } else {
        dataBuffer[dataLength] := b;
        dataLength := dataLength + 1;
      }
      NoErase(rx.parser, Next(rx.parser, rx.table, b).0, rx.table, |rx.queue| + 1);
      WholeQueue(rx.queue + [|rx.received|]);
    }

    /** The loop at line 329: the slot whose length and bytes are those of the identifier, or 10. */
    method FindSlot() returns (i: nat)
      requires Arrays() && idLength <= ID_SIZE
      ensures i == Lookup(urcs[..], idBuffer[..idLength])
    {
      hide First, MemEqual;
      ghost var t, id := urcs[..], idBuffer[..idLength];
      i := 0;
      while i < SLOTS
        invariant 0 <= i <= SLOTS && forall k :: 0 <= k < i ==> !Meets(t[k], Spelled(id))
      {
        if urcs[i].length as int == idLength {
          if MemEqual(urcs[i].identifier, idBuffer[..idLength]) {
            break;
          }
        }
        i := i + 1;
      }
      FirstIs(t, Spelled(id), i);
    }

    /** Lines 325-366. */
    method EndIdentifier(b: byte)
      requires Pushed(b) && state.ParsingIdentifier? && EndsId(b)
      modifies this`head, this`num, this`state, this`idLength, this`dataLength, this`index, this`callback
      ensures Parsed(b, None)
    {
      hide Slot, First, Holds, Next, EraseCount, Bounded, TableShape;
      ghost var pushed := rx.queue + [|rx.received|];
      WholeQueue(pushed);
      AtIdEnd(rx.parser, rx.table, b, |pushed|);
      QueueCount(b);
      state := NotParsing;
      var i := FindSlot();
      if i < SLOTS {
        BeginData(i, rx.received + [b], pushed);
      }
      idLength := 0;
      assert dataBuffer[..0] == [] && idBuffer[..0] == [];
    }

    /** Lines 336-360: the identifier is that of slot i. */
    method BeginData(i: nat, ghost received: seq<byte>, ghost queue: seq<nat>)
      requires Arrays() && Holds(received, queue) && i < SLOTS
      modifies this`head, this`num, this`state, this`dataLength, this`index, this`callback
      ensures state == ParsingData && index == i && callback == urcs[i].callback && dataLength == 0
      ensures var k := if urcs[i].clear && |queue| >= idLength + 2 then idLength + 2 else 0;
              Holds(received, queue[..|queue| - k])
    {
      hide Slot;
      WholeQueue(queue);
      index := i;
      callback := urcs[i].callback;
      state := ParsingData;
      if urcs[index].clear && num >= idLength + 2 {
        Erase(idLength + 2, received, queue);
      }
      dataLength := 0;
    }

    /** Lines 376-403. */
    method EndData(b: byte) returns (fired: Option<Fire>)
      requires Pushed(b) && state.ParsingData? && EndsData(b) && dataLength < DATA_SIZE
      modifies this`head, this`num, this`state, this`dataLength, this`callback, dataBuffer
      ensures Parsed(b, fired)
    {
      hide Slot, First, Holds;
      ghost var pushed, data := rx.queue + [|rx.received|], rx.parser.data;
      WholeQueue(pushed);
      QueueCount(b);
      dataBuffer[dataLength] := 0;
      assert dataBuffer[..dataLength] == data;
      if urcs[index].clear && num >= dataLength {
        Erase(dataLength, rx.received + [b], pushed);
      }
      fired := None;
      if callback.Some? {
        fired := Some(Fire(callback.value, dataBuffer[..dataLength]));
        callback := None;
      }
      state := NotParsing;
      dataLength := 0;
      assert dataBuffer[..0] == [];
    }

    lemma QueueCount(b: byte)
      requires Arrays() && Holds(rx.received + [b], rx.queue + [|rx.received|])
      ensures num == |rx.queue| + 1
    {
    }

    /** registerCallback. */
    method Register(id: seq<byte>, f: Option<nat>, clear: bool) returns (ok: bool)
      requires Valid()
      modifies this`rx, urcs
      ensures Valid() && rx == Step(old(rx), Change(Add(id, f, clear)))
      ensures ok == UrcTable.Register(old(rx).table, id, f, clear).1
    {
      hide Inv, UrcTable.Register;
      InvBounds(rx);
      StepInv(rx, Change(Add(id, f, clear)));
      ok := RegisterCallback(urcs, id, f, clear);
      rx := Step(rx, Change(Add(id, f, clear)));
    }

    /** unregisterCallback. */
    method Unregister(id: seq<byte>)
      requires Valid()
      modifies this`rx, urcs
      ensures Valid() && rx == Step(old(rx), Change(Remove(id)))
    {
      hide Inv, UrcTable.Unregister;
      InvBounds(rx);
      StepInv(rx, Change(Remove(id)));
      UnregisterCallback(urcs, id);
      rx := Step(rx, Change(Remove(id)));
    }
  }

  /** The slots seen from the oldest of num bytes. */
  lemma NextTail(tail: nat, num: nat)
    requires num > 0
    ensures var next := (tail + 1) % RX_SIZE;
            && Slot(tail, 0) == next && (tail + num) % RX_SIZE == (next + (num - 1)) % RX_SIZE
            && forall i :: 0 <= i < num - 1 ==> Slot(next, i) == Slot(tail, i + 1)
  {
    hide Slot;
    SlotIs(tail, 0);
    TailMoves(tail, num);
    var next := (tail + 1) % RX_SIZE;
    forall i | 0 <= i < num - 1 ensures Slot(next, i) == Slot(tail, i + 1) {
      SlotNext(tail, i);
    }
  }

  lemma TailMoves(tail: nat, num: nat)
    requires num > 0
    ensures (tail + num) % RX_SIZE == ((tail + 1) % RX_SIZE + (num - 1)) % RX_SIZE
  {
  }

  /** The slot after the newest of num bytes. */
  lemma NextSlot(tail: nat, num: nat)
    requires tail < RX_SIZE && num < RX_SIZE
    ensures var next := ((tail + num) % RX_SIZE + 1) % RX_SIZE;
            && next == Slot(tail, num) == (tail + (num + 1)) % RX_SIZE
            && (next == tail <==> num + 1 == RX_SIZE)
            && forall i :: 0 <= i < num ==> Slot(tail, i) != next
  {
    hide Slot;
    SlotNext(tail, num);
    LastSlot(tail);
    if num + 1 < RX_SIZE {
      SlotsDiffer(tail, num, RX_SIZE - 1);
    }
    forall i | 0 <= i < num ensures Slot(tail, i) != Slot(tail, num) {
      SlotsDiffer(tail, i, num);
    }
    assert Slot(tail, num) == (tail + (num + 1)) % RX_SIZE by { SlotIs(tail, num); }
  }

  lemma SlotIs(tail: nat, i: nat)
    ensures Slot(tail, i) == (tail + (i + 1)) % RX_SIZE
  {
  }

  /** The parts of a received byte's step. */
  lemma ReceivedParts(rx: Rx, b: byte)
    requires Inv(rx)
    ensures Bounded(rx.parser) && TableShape(rx.table)
    ensures var r, pushed := Received(rx, b), rx.queue + [|rx.received|];
            var (next, action) := Next(rx.parser, rx.table, b);
            && Bounded(next)
            && r.received == rx.received + [b] && r.parser == next && r.table == rx.table
            && r.queue == pushed[..|pushed| - EraseCount(rx.parser, next, action, rx.table, |pushed|)]
            && r.fires == rx.fires + Fires(action)
  {
    hide EraseCount, Next, Conserved, Tracks;
    NextBounded(rx.parser, rx.table, b);
  }

  lemma WholeQueue(queue: seq<nat>)
    ensures queue[..|queue|] == queue && queue[..|queue| - 0] == queue
  {
  }

  lemma NoErase(p: Parser, next: Parser, t: seq<Urc>, queued: nat)
    requires |t| == SLOTS && p.index < SLOTS && next.index < SLOTS
    ensures EraseCount(p, next, Quiet, t, queued) == 0
  {
  }

  lemma InsideId(p: Parser, t: seq<Urc>, b: byte)
    requires p.state.ParsingIdentifier? && !EndsId(b) && Bounded(p)
    ensures Next(p, t, b) == (if |p.id| == ID_SIZE then p.(state := NotParsing) else p.(id := p.id + [b]), Quiet)
  {
  }

  lemma AtIdEnd(p: Parser, t: seq<Urc>, b: byte, queued: nat)
    requires p.state.ParsingIdentifier? && EndsId(b) && Bounded(p) && |t| == SLOTS
    ensures var i, (next, action) := Lookup(t, p.id), Next(p, t, b);
            && Bounded(next) && !action.Ended?
            && next == (if i < SLOTS then Parser(ParsingData, [], [], i, t[i].callback) else p.(state := NotParsing, id := []))
            && EraseCount(p, next, action, t, queued)
               == if i < SLOTS && t[i].clear && queued >= |p.id| + 2 then |p.id| + 2 else 0
  {
    hide First;
  }

  /** The slot of the byte last taken is the last to be filled again. */
  lemma LastSlot(tail: nat)
    ensures tail < RX_SIZE ==> Slot(tail, RX_SIZE - 1) == tail
  {
  }

  lemma OldestReceived(rx: Rx)
    requires Inv(rx) && rx.queue != []
    ensures rx.queue[0] < |rx.received|
  {
  }

  lemma NothingArrived(rx: Rx, at: nat)
    requires Inv(rx)
    ensures Loaded(rx, at, []) == at && Run(rx, Receives([])) == rx
  {
  }

  lemma NextArrival(rx: Rx, at: nat, s: seq<byte>)
    requires Inv(rx) && s != [] && Arrivable(rx, s)
    ensures Bounded(rx.parser) && TableShape(rx.table) && Inv(Received(rx, s[0]))
    ensures |rx.queue| < RX_SIZE && !(rx.parser.state.ParsingData? && EndsData(s[0]) && |rx.parser.data| == DATA_SIZE)
    ensures Received(rx, s[0]).received == rx.received + [s[0]]
    ensures Arrivable(Received(rx, s[0]), s[1..])
    ensures Loaded(rx, at, s)
            == Loaded(Received(rx, s[0]), if |rx.queue| + 1 == RX_SIZE then |rx.received| else at, s[1..])
    ensures Run(rx, Receives(s)) == Run(Received(rx, s[0]), Receives(s[1..]))
  {
    hide Inv, Received;
    InvBounds(rx);
    ReceivedInv(rx, s[0]);
    OneMore(rx, s[0]);
    assert Receives(s)[0] == Receive(s[0]) && Receives(s)[1..] == Receives(s[1..]);
  }
}
