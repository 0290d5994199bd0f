/**
 The request buffer of the X11 probes: reserve() hands out space in the connection's buffer and flushes
 when it is full; a builder then stores the members of its request one after the other. Whatever the
 pattern of flushes, the server receives the requests in call order.
 */
module X11Buffer {
  import opened Octets
  import opened X11Wire

  class Display {
    const e: Extensions
    const buffer: array<Byte>
    var bufptr: nat              // how much of the buffer is in use
    var lastReq: nat             // where the last reserved request starts
    var request: nat             // the sequence number
    var wire: Bytes              // what has been written to the connection
    ghost var sent: seq<Request> // the requests built so far
    ghost var flushed: nat       // how many of them have been written

    ghost predicate Valid()
      reads this, buffer
    {
      && e.Valid() && 28 <= buffer.Length && bufptr <= buffer.Length
      && request == |sent| && flushed <= |sent|
      && wire == Stream(e, sent[..flushed])
      && buffer[..bufptr] == Stream(e, sent[flushed..])
    }

    /** Xlib allocates the buffer; it has room for the longest of these requests. */
    constructor (e: Extensions, size: nat)
      requires e.Valid() && 28 <= size
      ensures Valid() && fresh(buffer) && this.e == e && buffer.Length == size && sent == [] && wire == []
    {
      this.e := e;
      buffer := new Byte[size];
      bufptr, lastReq, request, wire, sent, flushed := 0, 0, 0, [], [], 0;
    }

    /** _XFlush: writes out whole requests only. */
    method Flush()
      requires Valid()
      modifies this`bufptr, this`wire, this`flushed
      ensures Valid() && bufptr == 0 && flushed == |sent|
      ensures wire == Stream(e, sent)
    {
      assert sent == sent[..flushed] + sent[flushed..];
      StreamConcat(e, sent[..flushed], sent[flushed..]);
      wire := wire + buffer[..bufptr];
      bufptr := 0;
      flushed := |sent|;
      assert sent[..flushed] == sent && sent[flushed..] == [];
    }

    /** Hands out space for a request; the caller has yet to fill it. */
    method Reserve(bytes: nat) returns (ptr: nat)
      requires Valid() && bytes <= buffer.Length
      modifies this`bufptr, this`lastReq, this`request, this`wire, this`flushed
      ensures ptr + bytes == bufptr <= buffer.Length && lastReq == ptr && request == old(request) + 1
      ensures flushed <= |sent| && wire == Stream(e, sent[..flushed])
      ensures buffer[..ptr] == Stream(e, sent[flushed..])
      ensures old(bufptr) + bytes <= buffer.Length ==> flushed == old(flushed) && wire == old(wire)
    {
      if buffer.Length < bufptr + bytes {
        Flush();
      }
      ptr := bufptr;
      lastReq := ptr;
      bufptr := bufptr + bytes;
      request := request + 1;
    }

    /** Stores one member at a place in the buffer. */
    method Store(at: nat, f: Field)
      requires at + |FieldBytes(f)| <= buffer.Length
      modifies buffer
      ensures buffer[..at] == old(buffer[..at])
      ensures buffer[at..at + |FieldBytes(f)|] == FieldBytes(f)
    {
      var b := FieldBytes(f);
      for i := 0 to |b|
        invariant buffer[..at] == old(buffer[..at])
        invariant buffer[at..at + i] == b[..i]
      {
        buffer[at + i] := b[i];
        assert buffer[at..at + i + 1] == buffer[at..at + i] + [b[i]];
      }
      assert b[..|b|] == b;
    }

    /** A request builder: reserves the size of its structure and stores every member in order. */
    method Build(r: Request)
      requires Valid()
      modifies this`bufptr, this`lastReq, this`request, this`wire, this`sent, this`flushed, buffer
      ensures Valid() && sent == old(sent) + [r] && request == old(request) + 1
      ensures lastReq + |Wire(e, r)| == bufptr && buffer[lastReq..bufptr] == Wire(e, r)
    {
      hide FieldsBytes;
      hide Members;
      hide Stream;
      hide Length;
      hide Extensions.Valid;
      SelfDelimiting(e, r);
      var fields := Layout(e, r);
      var ptr := Reserve(4 * Length(r));
      StoreAll(ptr, fields);
      Appended(e, sent, flushed, r);
      Cut(buffer[..], ptr, bufptr);
      sent := sent + [r];
    }

    method StoreAll(ptr: nat, fields: seq<Field>)
      requires ptr + |FieldsBytes(fields)| <= buffer.Length
      modifies buffer
      ensures buffer[..ptr] == old(buffer[..ptr])
      ensures buffer[ptr..ptr + |FieldsBytes(fields)|] == FieldsBytes(fields)
    {
      hide FieldBytes;
      hide FieldsBytes;
      NoFields();
      var at := ptr;
      assert fields[..0] == [];
      for k := 0 to |fields|
        invariant at == ptr + |FieldsBytes(fields[..k])| && at <= buffer.Length
        invariant buffer[..ptr] == old(buffer[..ptr])
        invariant buffer[ptr..at] == FieldsBytes(fields[..k])
      {
        FieldsSnoc(fields, k);
        ghost var before := buffer[..];
        Store(at, fields[k]);
        Extended(before, buffer[..], ptr, at, at + |FieldBytes(fields[k])|);
        at := at + |FieldBytes(fields[k])|;
      }
      assert fields[..|fields|] == fields;
    }

    /** query_counter: sends the request, waits for the reply, and joins the halves of the value. */
    method QueryCounter(cid: Card32, reply: Option<Bytes>) returns (value: Option<Int64>)
      requires Valid() && (reply.Some? ==> |reply.value| == 32)
      modifies this`bufptr, this`lastReq, this`request, this`wire, this`sent, this`flushed, buffer
      ensures Valid() && sent == old(sent) + [CounterId(false, cid)] && flushed == |sent|
      ensures value == if reply.Some? then Some(CounterAt(reply.value, 8)) else None
    {
      Build(CounterId(false, cid));
      Flush();
      if reply.None? {
        return None;
      }
      value := Some(Join(Signed(U32At(reply.value, 8)), U32At(reply.value, 12)));
    }
  }

  lemma Extended(before: Bytes, after: Bytes, ptr: nat, at: nat, next: nat)
    requires ptr <= at <= next <= |after| && |before| == |after| && before[..at] == after[..at]
    ensures after[..ptr] == before[..ptr] && after[ptr..next] == before[ptr..at] + after[at..next]
  {
    forall i | 0 <= i < at ensures before[i] == after[i] {
      assert before[..at][i] == after[..at][i];
    }
  }

  lemma Cut(b: Bytes, ptr: nat, to: nat)
    requires ptr <= to <= |b|
    ensures b[..to] == b[..ptr] + b[ptr..to]
  {
  }

  lemma NoFields()
    ensures FieldsBytes([]) == []
  {
  }

  lemma Appended(e: Extensions, sent: seq<Request>, flushed: nat, r: Request)
    requires flushed <= |sent|
    ensures (sent + [r])[..flushed] == sent[..flushed]
    ensures Stream(e, (sent + [r])[flushed..]) == Stream(e, sent[flushed..]) + Wire(e, r)
  {
    hide Wire;
    assert (sent + [r])[flushed..] == sent[flushed..] + [r];
    StreamConcat(e, sent[flushed..], [r]);
    assert Stream(e, [r]) == Wire(e, r) + Stream(e, []);
  }

  lemma {:induction false} FieldsConcat(a: seq<Field>, b: seq<Field>)
    ensures FieldsBytes(a + b) == FieldsBytes(a) + FieldsBytes(b)
  {
    hide FieldBytes;
    if a == [] {
      assert a + b == b;
    } else {
      calc {
        FieldsBytes(a + b);
        { assert (a + b)[0] == a[0] && (a + b)[1..] == a[1..] + b; }
        FieldBytes(a[0]) + FieldsBytes(a[1..] + b);
        { FieldsConcat(a[1..], b); }
        FieldBytes(a[0]) + (FieldsBytes(a[1..]) + FieldsBytes(b));
        FieldsBytes(a) + FieldsBytes(b);
      }
    }
  }

  lemma FieldsSnoc(fields: seq<Field>, k: nat)
    requires k < |fields|
    ensures FieldsBytes(fields[..k + 1]) == FieldsBytes(fields[..k]) + FieldBytes(fields[k])
    ensures |FieldsBytes(fields[..k + 1])| <= |FieldsBytes(fields)|
  {
    hide FieldBytes;
    assert fields[..k + 1] == fields[..k] + [fields[k]];
    FieldsConcat(fields[..k], [fields[k]]);
    assert FieldsBytes([fields[k]]) == FieldBytes(fields[k]) + FieldsBytes([]);
    assert fields == fields[..k + 1] + fields[k + 1..];
    FieldsConcat(fields[..k + 1], fields[k + 1..]);
  }

  /** A reply that carries the halves of a value gives the value back. */
  lemma ReplyCarriesValue(reply: Bytes, value: Int64)
    requires |reply| == 32 && reply[8..12] == Le32(Hi(value)) && reply[12..16] == Le32(Lo(value))
    ensures CounterAt(reply, 8) == value
  {
    hide Le32;
    hide U32At;
    Le32Reads(Hi(value), reply, 8);
    Le32Reads(Lo(value), reply, 12);
    SplitJoins(value);
  }

  datatype Call = Send(r: Request) | FlushNow

  function Requests(calls: seq<Call>): seq<Request> {
    if calls == [] then []
    else
      Requests(calls[..|calls| - 1]) + match calls[|calls| - 1] case Send(r) => [r] case FlushNow => []
  }

  /** Any sequence of builder calls and flushes, then a flush: the server receives exactly the requests. */
  method Session(e: Extensions, size: nat, calls: seq<Call>) returns (received: Bytes, numbered: nat)
    requires e.Valid() && 28 <= size
    ensures received == Stream(e, Requests(calls)) && numbered == |Requests(calls)|
    ensures Receive(e, received) == Some(Requests(calls))
  {
    var display := new Display(e, size);
    for i := 0 to |calls|
      invariant display.Valid() && display.e == e && fresh(display) && fresh(display.buffer)
      invariant display.sent == Requests(calls[..i])
    {
      assert calls[..i + 1][..i] == calls[..i];
      match calls[i]
      case Send(r) => display.Build(r);
      case FlushNow => display.Flush();
    }
    assert calls[..|calls|] == calls;
    display.Flush();
    ReceiveInverts(e, display.sent);
    return display.wire, display.request;
  }
}
