/**
 The USB CDC stdio redirection (arch/arm/stm32/px_usb_cdc_stdio.h).

 The module owns two circular buffers: received bytes wait in the rx buffer
 until the application reads them, and bytes the application writes wait in
 the tx buffer until the USB driver fetches them. Only the header is part of
 this model, so each buffer is seen from outside: the bytes it holds, oldest
 first, and a fixed capacity. Every operation is a function from the state
 before the call to its result and the state after it.
 */
module CdcStdio {
  import opened Types

  const LF: byte := 10
  const CR: byte := 13

  /** One circular buffer: queued bytes, oldest first, and its capacity. */
  datatype Fifo = Fifo(items: seq<byte>, capacity: nat)

  /** The state of the module: the receive and the transmit buffer. */
  datatype Stdio = Stdio(rx: Fifo, tx: Fifo)

  /** The result of an operation together with the state after it. */
  datatype Step<T> = Step(value: T, next: Stdio)

  predicate FifoValid(f: Fifo)
  {
    |f.items| <= f.capacity
  }

  /** Neither buffer ever holds more bytes than it has room for. */
  predicate Valid(s: Stdio)
  {
    FifoValid(s.rx) && FifoValid(s.tx)
  }

  function Room(f: Fifo): nat
    requires FifoValid(f)
  {
    f.capacity - |f.items|
  }

  /* ---- The two buffer primitives ---- */

  /** Append a byte; refused when the buffer is full. */
  function Push(f: Fifo, b: byte): (r: (bool, Fifo))
    requires FifoValid(f)
    ensures FifoValid(r.1) && r.1.capacity == f.capacity
    ensures r.0 <==> |f.items| < f.capacity
    ensures r.0 ==> r.1.items == f.items + [b]
    ensures !r.0 ==> r.1 == f
  {
    if |f.items| < f.capacity then (true, f.(items := f.items + [b])) else (false, f)
  }

  /** Remove the oldest byte; nothing when the buffer is empty. */
  function Pop(f: Fifo): (r: (Option<byte>, Fifo))
    requires FifoValid(f)
    ensures FifoValid(r.1) && r.1.capacity == f.capacity
    ensures r.0.Some? <==> |f.items| > 0
    ensures r.0.Some? ==> r.0.value == f.items[0] && r.1.items == f.items[1..]
    ensures r.0.None? ==> r.1 == f
  {
    if |f.items| > 0 then (Some(f.items[0]), f.(items := f.items[1..])) else (None, f)
  }

  /* ---- Application side ---- */

  /** px_usb_cdc_stdio_init: both buffers start empty. */
  function Init(rxCapacity: nat, txCapacity: nat): (s: Stdio)
    ensures Valid(s)
    ensures s.rx.items == [] && s.tx.items == []
    ensures s.rx.capacity == rxCapacity && s.tx.capacity == txCapacity
  {
    Stdio(Fifo([], rxCapacity), Fifo([], txCapacity))
  }

  /** The bytes put_char sends for one byte: a line feed goes out as carriage
      return, line feed; any other byte goes out unchanged. */
  function Expand(c: byte): seq<byte>
  {
    if c == LF then [CR, LF] else [c]
  }

  /** px_usb_cdc_stdio_wr_u8: queue a byte for transmission; false when the
      transmit buffer is full. */
  function WrU8(s: Stdio, b: byte): (r: Step<bool>)
    requires Valid(s)
    ensures Valid(r.next) && r.next.rx == s.rx && r.next.tx.capacity == s.tx.capacity
    ensures r.value <==> |s.tx.items| < s.tx.capacity
    ensures r.value ==> r.next.tx.items == s.tx.items + [b]
    ensures !r.value ==> r.next == s
  {
    var (ok, tx) := Push(s.tx, b);
    Step(ok, s.(tx := tx))
  }

  /** px_usb_cdc_stdio_put_char: send a byte, a line feed as "\r\n";
      always returns 0. */
  function PutChar(s: Stdio, c: byte): (r: Step<int>)
    requires Valid(s)
    ensures r.value == 0
    ensures Valid(r.next) && r.next.rx == s.rx && r.next.tx.capacity == s.tx.capacity
    ensures |Expand(c)| <= Room(s.tx) ==> r.next.tx.items == s.tx.items + Expand(c)
  {
    if c == LF then
      var first := WrU8(s, CR);
      Step(0, WrU8(first.next, LF).next)
    else
      Step(0, WrU8(s, c).next)
  }

  /** px_usb_cdc_stdio_rd_u8: take the oldest received byte, if any. */
  function RdU8(s: Stdio): (r: Step<Option<byte>>)
    requires Valid(s)
    ensures Valid(r.next) && r.next.tx == s.tx && r.next.rx.capacity == s.rx.capacity
    ensures r.value.Some? <==> |s.rx.items| > 0
    ensures r.value.Some? ==> r.value.value == s.rx.items[0] && r.next.rx.items == s.rx.items[1..]
    ensures r.value.None? ==> r.next == s
  {
    var (b, rx) := Pop(s.rx);
    Step(b, s.(rx := rx))
  }

  /** px_usb_cdc_stdio_get_char: blocks until a byte has been received, then
      returns it; here the wait is the requirement that one is there. */
  function GetChar(s: Stdio): (r: Step<byte>)
    requires Valid(s) && |s.rx.items| > 0
    ensures Valid(r.next) && r.next.tx == s.tx && r.next.rx.capacity == s.rx.capacity
    ensures r.value == s.rx.items[0]
    ensures r.next.rx.items == s.rx.items[1..]
  {
    var rd := RdU8(s);
    Step(rd.value.value, rd.next)
  }

  /** Once a byte has arrived, the blocking and the non-blocking read agree:
      the same byte, the same state afterwards. */
  lemma GetCharIsRdU8(s: Stdio)
    requires Valid(s) && |s.rx.items| > 0
    ensures RdU8(s).value == Some(GetChar(s).value)
    ensures RdU8(s).next == GetChar(s).next
    ensures GetChar(s).value == ReadAll(s).value[0]
  {
    ReadAllIsFifo(s);
  }

  /* ---- Driver side ---- */

  /** _px_usb_cdc_stdio_on_rx_byte: queue a received byte; a byte that finds
      the receive buffer full is dropped. */
  function OnRxByte(s: Stdio, b: byte): (r: Stdio)
    requires Valid(s)
    ensures Valid(r) && r.tx == s.tx && r.rx.capacity == s.rx.capacity
    ensures |s.rx.items| < s.rx.capacity ==> r.rx.items == s.rx.items + [b]
    ensures |s.rx.items| == s.rx.capacity ==> r == s
  {
    s.(rx := Push(s.rx, b).1)
  }

  /** _px_usb_cdc_stdio_on_rx_data: queue received bytes in order, one by
      one; the bytes that find the buffer full are dropped, so exactly the
      first Room(rx) of them (or all of them) are kept. */
  function OnRxData(s: Stdio, data: seq<byte>): (r: Stdio)
    requires Valid(s) && |data| < 0x1_0000
    ensures Valid(r) && r.tx == s.tx && r.rx.capacity == s.rx.capacity
    ensures r.rx.items == s.rx.items + data[..Min(|data|, Room(s.rx))]
    decreases |data|
  {
    if |data| == 0 then s
    else
      var s1 := OnRxByte(s, data[0]);
      var r := OnRxData(s1, data[1..]);
      assert data[..Min(|data|, Room(s.rx))]
          == data[..Min(1, Room(s.rx))] + data[1..][..Min(|data| - 1, Room(s1.rx))];
      r
  }

  /** _px_usb_cdc_stdio_get_tx_byte: hand the driver the oldest queued byte,
      if any. */
  function GetTxByte(s: Stdio): (r: Step<Option<byte>>)
    requires Valid(s)
    ensures Valid(r.next) && r.next.rx == s.rx && r.next.tx.capacity == s.tx.capacity
    ensures r.value.Some? <==> |s.tx.items| > 0
    ensures r.value.Some? ==> r.value.value == s.tx.items[0] && r.next.tx.items == s.tx.items[1..]
    ensures r.value.None? ==> r.next == s
  {
    var (b, tx) := Pop(s.tx);
    Step(b, s.(tx := tx))
  }

  /** _px_usb_cdc_stdio_get_tx_data: hand the driver up to n queued bytes,
      oldest first. Fewer than n come back only when the buffer ran empty;
      the number returned is the length of the result. */
  function GetTxData(s: Stdio, n: uint16): (r: Step<seq<byte>>)
    requires Valid(s)
    ensures Valid(r.next) && r.next.rx == s.rx && r.next.tx.capacity == s.tx.capacity
    ensures |r.value| <= n && |r.value| <= |s.tx.items|
    ensures |r.value| < n ==> r.next.tx.items == []
    ensures r.value == s.tx.items[..|r.value|]
    ensures r.next.tx.items == s.tx.items[|r.value|..]
    decreases n
  {
    if n == 0 then Step([], s)
    else
      var first := GetTxByte(s);
      match first.value
      case None => Step([], s)
      case Some(b) =>
        var rest := GetTxData(first.next, n - 1);
        Step([b] + rest.value, rest.next)
  }

  /* ---- Streams ---- */

  /** The wire image of a byte stream written through put_char. */
  function Translate(cs: seq<byte>): seq<byte>
  {
    if |cs| == 0 then [] else Expand(cs[0]) + Translate(cs[1..])
  }

  /** The inverse of Translate: every carriage return directly followed by a
      line feed is dropped. */
  function Untranslate(w: seq<byte>): seq<byte>
  {
    if |w| == 0 then []
    else if |w| >= 2 && w[0] == CR && w[1] == LF then [LF] + Untranslate(w[2..])
    else [w[0]] + Untranslate(w[1..])
  }

  /** A translated stream never starts with a line feed: each one in the
      input comes out behind a carriage return. */
  lemma {:induction false} TranslateHead(cs: seq<byte>)
    ensures |Translate(cs)| > 0 ==> Translate(cs)[0] != LF
  {
  }

  /** Newline translation loses nothing: the application's bytes can be
      recovered from the wire, even when they hold carriage returns. */
  lemma {:induction false} TranslateRoundTrip(cs: seq<byte>)
    ensures Untranslate(Translate(cs)) == cs
  {
    if |cs| > 0 {
      var rest := Translate(cs[1..]);
      TranslateRoundTrip(cs[1..]);
      TranslateHead(cs[1..]);
      if cs[0] == LF {
        assert Translate(cs) == [CR, LF] + rest;
        assert Translate(cs)[2..] == rest;
      } else {
        assert Translate(cs) == [cs[0]] + rest;
        assert Translate(cs)[1..] == rest;
      }
      assert cs == [cs[0]] + cs[1..];
    }
  }

  /** Writing a string to stdout: put_char for each byte in turn. */
  function PutString(s: Stdio, cs: seq<byte>): (r: Stdio)
    requires Valid(s)
    ensures Valid(r) && r.rx == s.rx && r.tx.capacity == s.tx.capacity
    decreases |cs|
  {
    if |cs| == 0 then s else PutString(PutChar(s, cs[0]).next, cs[1..])
  }

  /** With room for the translated text, writing a string queues exactly its
      wire image behind what was already queued. */
  lemma {:induction false} PutStringQueuesTranslation(s: Stdio, cs: seq<byte>)
    requires Valid(s)
    requires |Translate(cs)| <= Room(s.tx)
    ensures PutString(s, cs).tx.items == s.tx.items + Translate(cs)
    decreases |cs|
  {
    if |cs| > 0 {
      var s1 := PutChar(s, cs[0]).next;
      assert Translate(cs) == Expand(cs[0]) + Translate(cs[1..]);
      PutStringQueuesTranslation(s1, cs[1..]);
    }
  }

  /** Reading stdin until rd_u8 reports an empty buffer. */
  function ReadAll(s: Stdio): (r: Step<seq<byte>>)
    requires Valid(s)
    ensures Valid(r.next) && r.next.tx == s.tx
    decreases |s.rx.items|
  {
    var rd := RdU8(s);
    match rd.value
    case None => Step([], s)
    case Some(b) =>
      var rest := ReadAll(rd.next);
      Step([b] + rest.value, rest.next)
  }

  /** The receive side is first in, first out: draining it yields the queued
      bytes in arrival order and leaves it empty. */
  lemma {:induction false} ReadAllIsFifo(s: Stdio)
    requires Valid(s)
    ensures ReadAll(s).value == s.rx.items
    ensures ReadAll(s).next.rx.items == []
    decreases |s.rx.items|
  {
    if |s.rx.items| > 0 {
      ReadAllIsFifo(RdU8(s).next);
    }
  }

  /** Bytes handed over by the driver are read back in the order they
      arrived, behind those already waiting, whatever the transmit side does
      in between. */
  lemma RxDeliveredInOrder(s: Stdio, data: seq<byte>, out: seq<byte>)
    requires Valid(s) && |data| < 0x1_0000
    ensures ReadAll(OnRxData(s, data)).value == s.rx.items + data[..Min(|data|, Room(s.rx))]
    ensures ReadAll(PutString(OnRxData(s, data), out)).value == ReadAll(OnRxData(s, data)).value
  {
    ReadAllIsFifo(OnRxData(s, data));
    ReadAllIsFifo(PutString(OnRxData(s, data), out));
  }

  /** What the application writes comes out of the driver hook as its wire
      image, in order, behind what was queued before. */
  lemma WrittenTextReachesDriver(s: Stdio, cs: seq<byte>, n: uint16)
    requires Valid(s)
    requires |Translate(cs)| <= Room(s.tx)
    requires |s.tx.items| + |Translate(cs)| <= n
    ensures GetTxData(PutString(s, cs), n).value == s.tx.items + Translate(cs)
    ensures GetTxData(PutString(s, cs), n).next.tx.items == []
  {
    PutStringQueuesTranslation(s, cs);
  }
}
