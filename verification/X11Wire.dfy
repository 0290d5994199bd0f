/**
 The requests that examples/compositor-x11-probe/compositor-x11-probe.c and
 examples/sync-x11-probe/sync-x11-probe.c build by hand, as bytes on a little-endian connection, and an
 independent decoder that reads fields at fixed places. Framing follows section 1 ("Protocol Formats",
 Request Format) of the X Window System Protocol, X Version 11.
 */
module X11Wire {
  import opened Octets

  type Card32 = x: int | 0 <= x < 0x1_0000_0000
  type Int64 = x: int | -0x8000_0000_0000_0000 <= x < 0x8000_0000_0000_0000

  // Major opcodes of the extensions, as the server assigned them.
  datatype Extensions = Extensions(composite: Byte, damage: Byte, xfixes: Byte, shape: Byte, glx: Byte, sync: Byte) {
    ghost predicate Valid() {
      var all := [43, composite, damage, xfixes, shape, glx, sync];
      forall i, j :: 0 <= i < j < |all| ==> all[i] != all[j]
    }
  }

  datatype CounterOp = CreateCounter | SetCounter | ChangeCounter
  datatype FenceOp = TriggerFence | ResetFence | DestroyFence | QueryFence | AwaitFence

  // One constructor for each request structure; builders that share a structure are told apart by a field.
  datatype Request =
    | CompositeQuery
    | Redirect(undo: bool, window: Card32, update: Byte)
    | NamePixmap(window: Card32, pixmap: Card32)
    | Overlay(release: bool, window: Card32)
    | DamageQuery
    | DamageCreate(damage: Card32, drawable: Card32, level: Byte)
    | DamageDestroy(damage: Card32)
    | DamageSubtract(damage: Card32)
    | ShapeRegion(window: Card32, kind: Byte)
    | ShapeSelect(window: Card32)
    | GlxClientInfo
    | GlxSetClientInfo
    | GlxSetClientInfo2
    | SyncInitialize
    | Counter(op: CounterOp, cid: Card32, value: Int64)
    | CounterId(destroy: bool, cid: Card32)
    | AwaitGe(cid: Card32, wait: Int64)
    | CreateFence(drawable: Card32, fid: Card32, triggered: bool)
    | Fence(fenceOp: FenceOp, fid: Card32)
    | GetInputFocus

  // A 64-bit counter value travels as a signed high word and an unsigned low word.

  function Hi(value: Int64): int {
    value / 0x1_0000_0000
  }

  function Lo(value: Int64): int {
    value % 0x1_0000_0000
  }

  function Signed(word: Card32): int {
    if word < 0x8000_0000 then word else word - 0x1_0000_0000
  }

  /** ((int64_t)hi << 32) | lo */
  function Join(hi: int, lo: Card32): int {
    hi * 0x1_0000_0000 + lo
  }

  /** Every signed value survives the split, and the high word fits in 32 signed bits. */
  lemma SplitJoins(value: Int64)
    ensures -0x8000_0000 <= Hi(value) < 0x8000_0000
    ensures Signed(Hi(value) % 0x1_0000_0000) == Hi(value)
    ensures Join(Signed(Hi(value) % 0x1_0000_0000), Lo(value)) == value
  {
    var hi := Hi(value);
    assert value == hi * 0x1_0000_0000 + Lo(value);
    if hi < 0 {
      assert hi % 0x1_0000_0000 == hi + 0x1_0000_0000;
    } else {
      assert hi % 0x1_0000_0000 == hi;
    }
  }

  // Structure members in the order in which the builders store them.
  datatype Field = F8(v: int) | F16(v: int) | F32(v: int)

  function FieldBytes(f: Field): (b: Bytes)
    ensures 1 <= |b| <= 4
  {
    match f
    case F8(v) => [v % 0x100]
    case F16(v) => Le16(v)
    case F32(v) => Le32(v)
  }

  function Major(e: Extensions, r: Request): Byte {
    match r
    case CompositeQuery => e.composite
    case Redirect(_, _, _) => e.composite
    case NamePixmap(_, _) => e.composite
    case Overlay(_, _) => e.composite
    case DamageQuery => e.damage
    case DamageCreate(_, _, _) => e.damage
    case DamageDestroy(_) => e.damage
    case DamageSubtract(_) => e.damage
    case ShapeRegion(_, _) => e.xfixes
    case ShapeSelect(_) => e.shape
    case GlxClientInfo => e.glx
    case GlxSetClientInfo => e.glx
    case GlxSetClientInfo2 => e.glx
    case GetInputFocus => 43
    case _ => e.sync
  }

  function Minor(r: Request): Byte {
    match r
    case CompositeQuery => 0
    case Redirect(undo, _, _) => if undo then 4 else 2
    case NamePixmap(_, _) => 6
    case Overlay(release, _) => if release then 8 else 7
    case DamageQuery => 0
    case DamageCreate(_, _, _) => 1
    case DamageDestroy(_) => 2
    case DamageSubtract(_) => 3
    case ShapeRegion(_, _) => 21
    case ShapeSelect(_) => 6
    case GlxClientInfo => 20
    case GlxSetClientInfo => 33
    case GlxSetClientInfo2 => 35
    case SyncInitialize => 0
    case Counter(CreateCounter, _, _) => 2
    case Counter(SetCounter, _, _) => 3
    case Counter(ChangeCounter, _, _) => 4
    case CounterId(destroy, _) => if destroy then 6 else 5
    case AwaitGe(_, _) => 7
    case CreateFence(_, _, _) => 14
    case Fence(TriggerFence, _) => 15
    case Fence(ResetFence, _) => 16
    case Fence(DestroyFence, _) => 17
    case Fence(QueryFence, _) => 18
    case Fence(AwaitFence, _) => 19
    case GetInputFocus => 0
  }

  /** The length member, in four byte units, as each builder sets it. */
  function Length(r: Request): nat {
    match r
    case CompositeQuery => 3
    case Redirect(_, _, _) => 3
    case NamePixmap(_, _) => 3
    case Overlay(_, _) => 2
    case DamageQuery => 3
    case DamageCreate(_, _, _) => 4
    case DamageDestroy(_) => 2
    case DamageSubtract(_) => 4
    case ShapeRegion(_, _) => 5
    case ShapeSelect(_) => 3
    case GlxClientInfo => 4
    case GlxSetClientInfo => 6
    case GlxSetClientInfo2 => 7
    case SyncInitialize => 2
    case Counter(_, _, _) => 4
    case CounterId(_, _) => 2
    case AwaitGe(_, _) => 6
    case CreateFence(_, _, _) => 4
    case Fence(_, _) => 2
    case GetInputFocus => 1
  }

  /** The members behind the four byte head, padding included. */
  function Members(r: Request): seq<Field> {
    match r
    case CompositeQuery => [F32(0), F32(4)]
    case Redirect(_, window, update) => [F32(window), F8(update), F8(0), F16(0)]
    case NamePixmap(window, pixmap) => [F32(window), F32(pixmap)]
    case Overlay(_, window) => [F32(window)]
    case DamageQuery => [F32(1), F32(1)]
    case DamageCreate(damage, drawable, level) => [F32(damage), F32(drawable), F8(level), F8(0), F16(0)]
    case DamageDestroy(damage) => [F32(damage)]
    case DamageSubtract(damage) => [F32(damage), F32(0), F32(0)]
    case ShapeRegion(window, kind) =>
      [F32(window), F8(kind), F8(0), F8(0), F8(0), F16(0), F16(0), F32(0)]
    case ShapeSelect(window) => [F32(window), F8(1), F8(0), F8(0), F8(0)]
    case GlxClientInfo => [F32(1), F32(4), F32(0)]
    case GlxSetClientInfo => [F32(1), F32(0), F32(0), F32(1), F32(4)]
    case GlxSetClientInfo2 => [F32(1), F32(0), F32(0), F32(1), F32(4), F32(0)]
    case SyncInitialize => [F8(3), F8(1), F16(0)]
    case Counter(_, cid, value) => [F32(cid), F32(Hi(value)), F32(Lo(value))]
    case CounterId(_, cid) => [F32(cid)]
    case AwaitGe(cid, wait) => [F32(cid), F32(0), F32(Hi(wait)), F32(Lo(wait)), F32(2)]
    case CreateFence(drawable, fid, triggered) =>
      [F32(drawable), F32(fid), F8(if triggered then 1 else 0), F8(0), F8(0), F8(0)]
    case Fence(_, fid) => [F32(fid)]
    case GetInputFocus => []
  }

  function Layout(e: Extensions, r: Request): seq<Field> {
    [F8(Major(e, r)), F8(Minor(r)), F16(Length(r))] + Members(r)
  }

  function FieldsBytes(fields: seq<Field>): Bytes {
    if fields == [] then [] else FieldBytes(fields[0]) + FieldsBytes(fields[1..])
  }

  /** A request on the wire. */
  function Wire(e: Extensions, r: Request): Bytes {
    FieldsBytes(Layout(e, r))
  }

  // The decoder. It insists on the constants, and on zeros in the padding.

  predicate Zero(b: Bytes, from: nat, to: nat)
    requires from <= to <= |b|
  {
    forall i :: from <= i < to ==> b[i] == 0
  }

  function DecodeComposite(b: Bytes): Option<Request>
    requires 4 <= |b|
  {
    match (b[1], |b|)
    case (0, 12) => if U32At(b, 4) == 0 && U32At(b, 8) == 4 then Some(CompositeQuery) else None
    case (2, 12) => if Zero(b, 9, 12) then Some(Redirect(false, U32At(b, 4), b[8])) else None
    case (4, 12) => if Zero(b, 9, 12) then Some(Redirect(true, U32At(b, 4), b[8])) else None
    case (6, 12) => Some(NamePixmap(U32At(b, 4), U32At(b, 8)))
    case (7, 8) => Some(Overlay(false, U32At(b, 4)))
    case (8, 8) => Some(Overlay(true, U32At(b, 4)))
    case _ => None
  }

  function DecodeDamage(b: Bytes): Option<Request>
    requires 4 <= |b|
  {
    match (b[1], |b|)
    case (0, 12) => if U32At(b, 4) == 1 && U32At(b, 8) == 1 then Some(DamageQuery) else None
    case (1, 16) => if Zero(b, 13, 16) then Some(DamageCreate(U32At(b, 4), U32At(b, 8), b[12])) else None
    case (2, 8) => Some(DamageDestroy(U32At(b, 4)))
    case (3, 16) => if U32At(b, 8) == 0 && U32At(b, 12) == 0 then Some(DamageSubtract(U32At(b, 4))) else None
    case _ => None
  }

  function CounterAt(b: Bytes, at: nat): (v: Int64)
    requires at + 8 <= |b|
  {
    Join(Signed(U32At(b, at)), U32At(b, at + 4))
  }

  function DecodeSync(b: Bytes): Option<Request>
    requires 4 <= |b|
  {
    match (b[1], |b|)
    case (0, 8) => if b[4] == 3 && b[5] == 1 && Zero(b, 6, 8) then Some(SyncInitialize) else None
    case (2, 16) => Some(Counter(CreateCounter, U32At(b, 4), CounterAt(b, 8)))
    case (3, 16) => Some(Counter(SetCounter, U32At(b, 4), CounterAt(b, 8)))
    case (4, 16) => Some(Counter(ChangeCounter, U32At(b, 4), CounterAt(b, 8)))
    case (5, 8) => Some(CounterId(false, U32At(b, 4)))
    case (6, 8) => Some(CounterId(true, U32At(b, 4)))
    case (7, 24) =>
      if U32At(b, 8) == 0 && U32At(b, 20) == 2 then Some(AwaitGe(U32At(b, 4), CounterAt(b, 12))) else None
    case (14, 16) =>
      if b[12] <= 1 && Zero(b, 13, 16) then Some(CreateFence(U32At(b, 4), U32At(b, 8), b[12] == 1)) else None
    case (15, 8) => Some(Fence(TriggerFence, U32At(b, 4)))
    case (16, 8) => Some(Fence(ResetFence, U32At(b, 4)))
    case (17, 8) => Some(Fence(DestroyFence, U32At(b, 4)))
    case (18, 8) => Some(Fence(QueryFence, U32At(b, 4)))
    case (19, 8) => Some(Fence(AwaitFence, U32At(b, 4)))
    case _ => None
  }

  function DecodeOther(e: Extensions, b: Bytes): Option<Request>
    requires 4 <= |b|
  {
    if b[0] == 43 then (if |b| == 4 then Some(GetInputFocus) else None)
    else if b[0] == e.xfixes && b[1] == 21 && |b| == 20 then
      if Zero(b, 9, 12) && U16At(b, 12) == 0 && U16At(b, 14) == 0 && U32At(b, 16) == 0
      then Some(ShapeRegion(U32At(b, 4), b[8])) else None
    else if b[0] == e.shape && b[1] == 6 && |b| == 12 then
      if b[8] == 1 && Zero(b, 9, 12) then Some(ShapeSelect(U32At(b, 4))) else None
    else if b[0] == e.glx then DecodeGlx(b)
    else None
  }

  function DecodeGlx(b: Bytes): Option<Request>
    requires 4 <= |b|
  {
    match (b[1], |b|)
    case (20, 16) => if U32At(b, 4) == 1 && U32At(b, 8) == 4 && U32At(b, 12) == 0 then Some(GlxClientInfo) else None
    case (33, 24) => if GlxVersions(b) then Some(GlxSetClientInfo) else None
    case (35, 28) => if GlxVersions(b) && U32At(b, 24) == 0 then Some(GlxSetClientInfo2) else None
    case _ => None
  }

  predicate GlxVersions(b: Bytes)
    requires 24 <= |b|
  {
    U32At(b, 4) == 1 && U32At(b, 8) == 0 && U32At(b, 12) == 0 && U32At(b, 16) == 1 && U32At(b, 20) == 4
  }

  function Decode(e: Extensions, b: Bytes): Option<Request> {
    if |b| < 4 then None
    else if b[0] == e.composite then DecodeComposite(b)
    else if b[0] == e.damage then DecodeDamage(b)
    else if b[0] == e.sync then DecodeSync(b)
    else DecodeOther(e, b)
  }

  // The bytes from position `at` on are the fields from the k-th on.
  ghost predicate At(b: Bytes, at: nat, fields: seq<Field>, k: nat) {
    at <= |b| && k <= |fields| && b[at..] == FieldsBytes(fields[k..])
  }

  lemma Take(b: Bytes, at: nat, fields: seq<Field>, k: nat)
    requires At(b, at, fields, k) && k < |fields|
    ensures var w := |FieldBytes(fields[k])|;
            at + w <= |b| && b[at..at + w] == FieldBytes(fields[k]) && At(b, at + w, fields, k + 1)
  {
    var w := |FieldBytes(fields[k])|;
    assert fields[k..][1..] == fields[k + 1..];
    assert b[at..] == FieldBytes(fields[k]) + FieldsBytes(fields[k + 1..]);
    assert b[at + w..] == b[at..][w..];
    assert b[at..at + w] == b[at..][..w];
  }

  lemma Take8(b: Bytes, at: nat, fields: seq<Field>, k: nat)
    requires At(b, at, fields, k) && k < |fields| && fields[k].F8?
    ensures at < |b| && b[at] == fields[k].v % 0x100 && At(b, at + 1, fields, k + 1)
  {
    Take(b, at, fields, k);
    assert b[at] == b[at..at + 1][0];
  }

  lemma Take16(b: Bytes, at: nat, fields: seq<Field>, k: nat)
    requires At(b, at, fields, k) && k < |fields| && fields[k].F16?
    ensures at + 2 <= |b| && U16At(b, at) == fields[k].v % 0x1_0000 && At(b, at + 2, fields, k + 1)
  {
    Take(b, at, fields, k);
    Le16Reads(fields[k].v, b, at);
  }

  lemma Take32(b: Bytes, at: nat, fields: seq<Field>, k: nat)
    requires At(b, at, fields, k) && k < |fields| && fields[k].F32?
    ensures at + 4 <= |b| && U32At(b, at) == fields[k].v % WORD && At(b, at + 4, fields, k + 1)
  {
    Take(b, at, fields, k);
    Le32Reads(fields[k].v, b, at);
  }

  lemma TakeEnd(b: Bytes, at: nat, fields: seq<Field>, k: nat)
    requires At(b, at, fields, k) && k == |fields|
    ensures at == |b|
  {
  }

  /** The head of a request: major and minor opcode, and the length member. */
  lemma Head(e: Extensions, r: Request)
    ensures var b := Wire(e, r);
            && 4 <= |b| && b[0] == Major(e, r) && b[1] == Minor(r) && U16At(b, 2) == Length(r)
            && At(b, 4, Members(r), 0)
  {
    HeadFields(Major(e, r), Minor(r), Length(r), Members(r));
  }

  lemma HeadFields(major: Byte, minor: Byte, length: nat, members: seq<Field>)
    requires length < 0x1_0000
    ensures var b := FieldsBytes([F8(major), F8(minor), F16(length)] + members);
            && 4 <= |b| && b[0] == major && b[1] == minor && U16At(b, 2) == length
            && At(b, 4, members, 0)
  {
    var fields := [F8(major), F8(minor), F16(length)] + members;
    var b := FieldsBytes(fields);
    assert fields[0..] == fields && b[0..] == b && At(b, 0, fields, 0);
    assert fields[3..] == members[0..];
    assert At(b, 4, fields, 3) ==> At(b, 4, members, 0);
    hide At;
    hide U16At;
    Take8(b, 0, fields, 0);
    Take8(b, 1, fields, 1);
    Take16(b, 2, fields, 2);
  }

  // Requests behind the head that consist of words only.
  lemma Words(b: Bytes, fields: seq<Field>, n: nat)
    requires At(b, 4, fields, 0) && |fields| == n && n <= 6 && forall k :: 0 <= k < n ==> fields[k].F32?
    ensures |b| == 4 + 4 * n
    ensures forall k :: 0 <= k < n ==> U32At(b, 4 + 4 * k) == fields[k].v % WORD
  {
    hide U32At;
    hide At;
    var k := 0;
    while k < n
      invariant k <= n && At(b, 4 + 4 * k, fields, k)
      invariant forall j :: 0 <= j < k ==> 8 + 4 * j <= |b| && U32At(b, 4 + 4 * j) == fields[j].v % WORD
    {
      Take32(b, 4 + 4 * k, fields, k);
      k := k + 1;
    }
    TakeEnd(b, 4 + 4 * n, fields, n);
  }

  predicate WordsOnly(r: Request) {
    !(r.Redirect? || r.DamageCreate? || r.ShapeRegion? || r.ShapeSelect? || r.SyncInitialize? || r.CreateFence?)
  }

  lemma WordMembers(e: Extensions, r: Request)
    requires WordsOnly(r)
    ensures var b, m := Wire(e, r), Members(r);
            && |b| == 4 + 4 * |m|
            && forall k :: 0 <= k < |m| ==> U32At(b, 4 + 4 * k) == m[k].v % WORD
  {
    Head(e, r);
    hide U32At;
    hide At;
    Words(Wire(e, r), Members(r), |Members(r)|);
  }

  lemma ByteMembers(e: Extensions, r: Request)
    requires !WordsOnly(r)
    ensures var b := Wire(e, r);
            match r
            case Redirect(_, window, update) => |b| == 12 && U32At(b, 4) == window && b[8] == update && Zero(b, 9, 12)
            case DamageCreate(damage, drawable, level) =>
              |b| == 16 && U32At(b, 4) == damage && U32At(b, 8) == drawable && b[12] == level && Zero(b, 13, 16)
            case ShapeRegion(window, kind) =>
              |b| == 20 && U32At(b, 4) == window && b[8] == kind && Zero(b, 9, 12)
              && U16At(b, 12) == 0 && U16At(b, 14) == 0 && U32At(b, 16) == 0
            case ShapeSelect(window) => |b| == 12 && U32At(b, 4) == window && b[8] == 1 && Zero(b, 9, 12)
            case SyncInitialize => |b| == 8 && b[4] == 3 && b[5] == 1 && Zero(b, 6, 8)
            case CreateFence(drawable, fid, triggered) =>
              |b| == 16 && U32At(b, 4) == drawable && U32At(b, 8) == fid && b[12] == (if triggered then 1 else 0)
              && Zero(b, 13, 16)
            case _ => true
  {
    Head(e, r);
    hide U32At;
    hide At;
    hide Wire;
    var b, m := Wire(e, r), Members(r);
    match r
    case Redirect(_, _, _) => ByteThenPads(b, m);
    case DamageCreate(_, _, _) => TwoWordsThenByte(b, m);
    case ShapeRegion(_, _) => Take32(b, 4, m, 0); ShapeRegionMembers(b, m);
    case ShapeSelect(_) => WordThenFourBytes(b, m);
    case SyncInitialize => TwoBytesThenPad(b, m);
    case CreateFence(_, _, _) => TwoWordsThenFourBytes(b, m);
  }

  lemma ByteThenPads(b: Bytes, m: seq<Field>)
    requires |m| == 4 && m[0].F32? && m[1].F8? && m[2].F8? && m[3].F16? && At(b, 4, m, 0)
    ensures |b| == 12 && U32At(b, 4) == m[0].v % WORD && b[8] == m[1].v % 0x100
    ensures m[2].v == 0 && m[3].v == 0 ==> Zero(b, 9, 12)
  {
    hide At;
    hide U32At;
    Take32(b, 4, m, 0);
    Take8(b, 8, m, 1);
    Take8(b, 9, m, 2);
    Take16(b, 10, m, 3);
    TakeEnd(b, 12, m, 4);
  }

  lemma TwoWordsThenByte(b: Bytes, m: seq<Field>)
    requires |m| == 5 && m[0].F32? && m[1].F32? && m[2].F8? && m[3].F8? && m[4].F16? && At(b, 4, m, 0)
    ensures |b| == 16 && U32At(b, 4) == m[0].v % WORD && U32At(b, 8) == m[1].v % WORD && b[12] == m[2].v % 0x100
    ensures m[3].v == 0 && m[4].v == 0 ==> Zero(b, 13, 16)
  {
    hide At;
    hide U32At;
    Take32(b, 4, m, 0);
    Take32(b, 8, m, 1);
    Take8(b, 12, m, 2);
    Take8(b, 13, m, 3);
    Take16(b, 14, m, 4);
    TakeEnd(b, 16, m, 5);
  }

  lemma WordThenFourBytes(b: Bytes, m: seq<Field>)
    requires |m| == 5 && m[0].F32? && m[1].F8? && m[2].F8? && m[3].F8? && m[4].F8? && At(b, 4, m, 0)
    ensures |b| == 12 && U32At(b, 4) == m[0].v % WORD && b[8] == m[1].v % 0x100
    ensures m[2].v == 0 && m[3].v == 0 && m[4].v == 0 ==> Zero(b, 9, 12)
  {
    hide At;
    hide U32At;
    Take32(b, 4, m, 0);
    Take8(b, 8, m, 1);
    Take8(b, 9, m, 2);
    Take8(b, 10, m, 3);
    Take8(b, 11, m, 4);
    TakeEnd(b, 12, m, 5);
  }

  lemma TwoBytesThenPad(b: Bytes, m: seq<Field>)
    requires |m| == 3 && m[0].F8? && m[1].F8? && m[2].F16? && At(b, 4, m, 0)
    ensures |b| == 8 && b[4] == m[0].v % 0x100 && b[5] == m[1].v % 0x100 && (m[2].v == 0 ==> Zero(b, 6, 8))
  {
    hide At;
    Take8(b, 4, m, 0);
    Take8(b, 5, m, 1);
    Take16(b, 6, m, 2);
    TakeEnd(b, 8, m, 3);
  }

  lemma TwoWordsThenFourBytes(b: Bytes, m: seq<Field>)
    requires |m| == 6 && m[0].F32? && m[1].F32? && m[2].F8? && m[3].F8? && m[4].F8? && m[5].F8? && At(b, 4, m, 0)
    ensures |b| == 16 && U32At(b, 4) == m[0].v % WORD && U32At(b, 8) == m[1].v % WORD && b[12] == m[2].v % 0x100
    ensures m[3].v == 0 && m[4].v == 0 && m[5].v == 0 ==> Zero(b, 13, 16)
  {
    hide At;
    hide U32At;
    Take32(b, 4, m, 0);
    Take32(b, 8, m, 1);
    Take8(b, 12, m, 2);
    Take8(b, 13, m, 3);
    Take8(b, 14, m, 4);
    Take8(b, 15, m, 5);
    TakeEnd(b, 16, m, 6);
  }

  lemma ShapeRegionMembers(b: Bytes, m: seq<Field>)
    requires |m| == 8 && m[1].F8? && m[2].F8? && m[3].F8? && m[4].F8? && m[5].F16? && m[6].F16? && m[7].F32?
    requires At(b, 8, m, 1)
    ensures |b| == 20 && b[8] == m[1].v % 0x100 && (m[2].v == 0 && m[3].v == 0 && m[4].v == 0 ==> Zero(b, 9, 12))
    ensures U16At(b, 12) == m[5].v % 0x1_0000 && U16At(b, 14) == m[6].v % 0x1_0000 && U32At(b, 16) == m[7].v % WORD
  {
    hide At;
    hide U32At;
    hide U16At;
    Take8(b, 8, m, 1);
    Take8(b, 9, m, 2);
    Take8(b, 10, m, 3);
    Take8(b, 11, m, 4);
    Take16(b, 12, m, 5);
    Take16(b, 14, m, 6);
    Take32(b, 16, m, 7);
    TakeEnd(b, 20, m, 8);
  }

  /** Each length member is the true length, so that a server can cut the stream. */
  lemma SelfDelimiting(e: Extensions, r: Request)
    ensures |Wire(e, r)| == 4 * Length(r) && 4 <= |Wire(e, r)| <= 28 && U16At(Wire(e, r), 2) == Length(r)
  {
    Head(e, r);
    hide Wire;
    if WordsOnly(r) {
      WordMembers(e, r);
    } else {
      ByteMembers(e, r);
    }
  }

  /** The decoder gives back every request, signed 64-bit values included. */
  lemma DecodeWire(e: Extensions, r: Request)
    requires e.Valid()
    ensures Decode(e, Wire(e, r)) == Some(r)
  {
    hide Wire;
    hide Decode;
    hide At;
    hide U32At;
    hide U16At;
    if WordsOnly(r) {
      Head(e, r);
      MajorIsDistinct(e, r);
      WordMembers(e, r);
      DecodeWords(e, r, Wire(e, r));
    } else {
      DecodeBytes(e, r);
    }
  }

  lemma DecodeBytes(e: Extensions, r: Request)
    requires e.Valid() && !WordsOnly(r)
    ensures Decode(e, Wire(e, r)) == Some(r)
  {
    Head(e, r);
    MajorIsDistinct(e, r);
    ByteMembers(e, r);
    hide Wire;
    hide U32At;
    hide U16At;
    hide At;
    hide Extensions.Valid;
    hide CounterAt;
    hide GlxVersions;
  }

  lemma MajorIsDistinct(e: Extensions, r: Request)
    requires e.Valid()
    ensures e.composite != e.damage && e.composite != e.sync && e.damage != e.sync && 43 !in {e.composite, e.damage, e.sync}
    ensures Major(e, r) in {43, e.xfixes, e.shape, e.glx} ==> Major(e, r) !in {e.composite, e.damage, e.sync}
    ensures 43 !in {e.xfixes, e.shape, e.glx} && e.xfixes != e.shape && e.xfixes != e.glx && e.shape != e.glx
  {
    var all := [43, e.composite, e.damage, e.xfixes, e.shape, e.glx, e.sync];
    assert all[0] == 43 && all[1] == e.composite && all[2] == e.damage && all[3] == e.xfixes && all[4] == e.shape
           && all[5] == e.glx && all[6] == e.sync;
  }

  lemma DecodeWords(e: Extensions, r: Request, b: Bytes)
    requires WordsOnly(r) && HasWords(e, r, b)
    requires e.composite != e.damage && e.composite != e.sync && e.damage != e.sync && 43 !in {e.composite, e.damage, e.sync}
    requires Major(e, r) in {43, e.xfixes, e.shape, e.glx} ==> Major(e, r) !in {e.composite, e.damage, e.sync}
    requires 43 !in {e.xfixes, e.shape, e.glx} && e.xfixes != e.shape && e.xfixes != e.glx && e.shape != e.glx
    ensures Decode(e, b) == Some(r)
  {
    hide U32At;
    hide DecodeComposite;
    hide DecodeDamage;
    hide DecodeSync;
    hide DecodeGlx;
    if r.CompositeQuery? || r.NamePixmap? || r.Overlay? {
      DecodeCompositeWords(e, r, b);
    } else if r.DamageQuery? || r.DamageDestroy? || r.DamageSubtract? {
      DecodeDamageWords(e, r, b);
    } else if r.GlxClientInfo? || r.GlxSetClientInfo? || r.GlxSetClientInfo2? {
      DecodeGlxWords(e, r, b);
    } else if !r.GetInputFocus? {
      DecodeSyncWords(e, r, b);
    }
  }

  // What a request of words only looks like behind its head.
  ghost predicate HasWords(e: Extensions, r: Request, b: Bytes) {
    && 4 <= |b| && b[0] == Major(e, r) && b[1] == Minor(r) && |b| == 4 + 4 * |Members(r)|
    && forall k :: 0 <= k < |Members(r)| ==> U32At(b, 4 + 4 * k) == Members(r)[k].v % WORD
  }

  lemma WordAt(e: Extensions, r: Request, b: Bytes, k: nat)
    requires HasWords(e, r, b) && k < |Members(r)|
    ensures U32At(b, 4 + 4 * k) == Members(r)[k].v % WORD
  {
  }

  lemma DecodeCompositeWords(e: Extensions, r: Request, b: Bytes)
    requires HasWords(e, r, b) && (r.CompositeQuery? || r.NamePixmap? || r.Overlay?)
    ensures DecodeComposite(b) == Some(r)
  {
    hide U32At;
    WordAt(e, r, b, 0);
    if !r.Overlay? {
      WordAt(e, r, b, 1);
    }
  }

  lemma DecodeDamageWords(e: Extensions, r: Request, b: Bytes)
    requires HasWords(e, r, b) && (r.DamageQuery? || r.DamageDestroy? || r.DamageSubtract?)
    ensures DecodeDamage(b) == Some(r)
  {
    hide U32At;
    WordAt(e, r, b, 0);
    if !r.DamageDestroy? {
      WordAt(e, r, b, 1);
    }
    if r.DamageSubtract? {
      WordAt(e, r, b, 2);
    }
  }

  lemma DecodeGlxWords(e: Extensions, r: Request, b: Bytes)
    requires HasWords(e, r, b) && (r.GlxClientInfo? || r.GlxSetClientInfo? || r.GlxSetClientInfo2?)
    ensures DecodeGlx(b) == Some(r)
  {
    hide U32At;
    WordAt(e, r, b, 0);
    WordAt(e, r, b, 1);
    WordAt(e, r, b, 2);
    if !r.GlxClientInfo? {
      WordAt(e, r, b, 3);
      WordAt(e, r, b, 4);
    }
    if r.GlxSetClientInfo2? {
      WordAt(e, r, b, 5);
    }
  }

  lemma CounterReads(b: Bytes, at: nat, value: Int64)
    requires at + 8 <= |b| && U32At(b, at) == Hi(value) % WORD && U32At(b, at + 4) == Lo(value) % WORD
    ensures CounterAt(b, at) == value
  {
    hide U32At;
    SplitJoins(value);
  }

  lemma DecodeSyncWords(e: Extensions, r: Request, b: Bytes)
    requires HasWords(e, r, b) && (r.Counter? || r.CounterId? || r.AwaitGe? || r.Fence?)
    ensures DecodeSync(b) == Some(r)
  {
    hide U32At;
    hide CounterAt;
    hide Hi;
    hide Lo;
    WordAt(e, r, b, 0);
    if r.Counter? {
      WordAt(e, r, b, 1);
      WordAt(e, r, b, 2);
      CounterReads(b, 8, r.value);
    } else if r.AwaitGe? {
      WordAt(e, r, b, 1);
      WordAt(e, r, b, 2);
      WordAt(e, r, b, 3);
      WordAt(e, r, b, 4);
      CounterReads(b, 12, r.wait);
    }
  }

  // The stream.

  function Stream(e: Extensions, requests: seq<Request>): Bytes {
    if requests == [] then [] else Wire(e, requests[0]) + Stream(e, requests[1..])
  }

  lemma {:induction false} StreamConcat(e: Extensions, a: seq<Request>, b: seq<Request>)
    ensures Stream(e, a + b) == Stream(e, a) + Stream(e, b)
  {
    hide Wire;
    if a == [] {
      assert a + b == b;
    } else {
      calc {
        Stream(e, a + b);
        { assert (a + b)[0] == a[0] && (a + b)[1..] == a[1..] + b; }
        Wire(e, a[0]) + Stream(e, a[1..] + b);
        { StreamConcat(e, a[1..], b); }
        Wire(e, a[0]) + (Stream(e, a[1..]) + Stream(e, b));
        Stream(e, a) + Stream(e, b);
      }
    }
  }

  /** What a server does: cuts the stream by the length member of each request. */
  function Split(s: Bytes): Option<seq<Bytes>> {
    if s == [] then Some([])
    else if |s| < 4 || U16At(s, 2) == 0 || |s| < 4 * U16At(s, 2) then None
    else
      var n := 4 * U16At(s, 2);
      match Split(s[n..])
      case None => None
      case Some(rest) => Some([s[..n]] + rest)
  }

  function DecodeAll(e: Extensions, parts: seq<Bytes>): Option<seq<Request>> {
    if parts == [] then Some([])
    else
      match (Decode(e, parts[0]), DecodeAll(e, parts[1..]))
      case (Some(r), Some(rest)) => Some([r] + rest)
      case _ => None
  }

  /** What a server reads from a stream. */
  function Receive(e: Extensions, s: Bytes): Option<seq<Request>> {
    match Split(s) case None => None case Some(parts) => DecodeAll(e, parts)
  }

  lemma SplitFirst(e: Extensions, r: Request, rest: Bytes)
    requires Split(rest).Some?
    ensures Split(Wire(e, r) + rest) == Some([Wire(e, r)] + Split(rest).value)
  {
    SelfDelimiting(e, r);
    hide Wire;
    var s, b := Wire(e, r) + rest, Wire(e, r);
    assert s[2] == b[2] && s[3] == b[3];
    assert s[..|b|] == b && s[|b|..] == rest;
  }

  /** The server recovers exactly the requests, in order. */
  lemma {:induction false} ReceiveInverts(e: Extensions, requests: seq<Request>)
    requires e.Valid()
    ensures Split(Stream(e, requests)).Some?
    ensures Receive(e, Stream(e, requests)) == Some(requests)
  {
    hide Wire;
    hide Decode;
    if requests == [] {
      assert Split([]) == Some([]);
    } else {
      var r, rest := requests[0], Stream(e, requests[1..]);
      ReceiveInverts(e, requests[1..]);
      SplitFirst(e, r, rest);
      DecodeWire(e, r);
      var parts := Split(rest).value;
      assert ([Wire(e, r)] + parts)[1..] == parts;
      assert requests == [r] + requests[1..];
    }
  }

  /** Two requests, byte by byte. */
  lemma WireBytes(e: Extensions)
    ensures Wire(e, Counter(SetCounter, 0x0102_0304, -2))
            == [e.sync, 3, 4, 0, 4, 3, 2, 1, 0xFF, 0xFF, 0xFF, 0xFF, 0xFE, 0xFF, 0xFF, 0xFF]
    ensures Wire(e, Redirect(false, 0x0102_0304, 1)) == [e.composite, 2, 3, 0, 4, 3, 2, 1, 1, 0, 0, 0]
  {
    CounterBytes(e);
    RedirectBytes(e);
  }

  lemma FieldsCons(f: Field, rest: seq<Field>)
    ensures FieldsBytes([f] + rest) == FieldBytes(f) + FieldsBytes(rest)
  {
    assert ([f] + rest)[1..] == rest;
  }

  /** The head and three members. */
  lemma SixFields(a: Field, b: Field, c: Field, d: Field, f: Field, g: Field)
    ensures FieldsBytes([a, b, c, d, f, g])
            == FieldBytes(a) + FieldBytes(b) + FieldBytes(c) + FieldBytes(d) + FieldBytes(f) + FieldBytes(g)
  {
    hide FieldBytes;
    FieldsCons(g, []);
    FieldsCons(f, [g]);
    FieldsCons(d, [f, g]);
    FieldsCons(c, [d, f, g]);
    FieldsCons(b, [c, d, f, g]);
    FieldsCons(a, [b, c, d, f, g]);
    assert [g] + [] == [g] && [f] + [g] == [f, g] && [d] + [f, g] == [d, f, g] && [c] + [d, f, g] == [c, d, f, g];
    assert [b] + [c, d, f, g] == [b, c, d, f, g] && [a] + [b, c, d, f, g] == [a, b, c, d, f, g];
    assert FieldsBytes([]) == [];
  }

  lemma CounterWords()
    ensures Hi(-2) == -1 && Lo(-2) == 0xFFFF_FFFE
    ensures FieldBytes(F32(0x0102_0304)) == [4, 3, 2, 1]
    ensures FieldBytes(F32(-1)) == [0xFF, 0xFF, 0xFF, 0xFF]
    ensures FieldBytes(F32(0xFFFF_FFFE)) == [0xFE, 0xFF, 0xFF, 0xFF]
  {
  }

  lemma HeadBytes(major: Byte, minor: Byte, length: Byte)
    ensures FieldBytes(F8(major)) == [major] && FieldBytes(F8(minor)) == [minor] && FieldBytes(F16(length)) == [length, 0]
  {
  }

  lemma CounterBytes(e: Extensions)
    ensures Wire(e, Counter(SetCounter, 0x0102_0304, -2))
            == [e.sync, 3, 4, 0, 4, 3, 2, 1, 0xFF, 0xFF, 0xFF, 0xFF, 0xFE, 0xFF, 0xFF, 0xFF]
  {
    hide FieldsBytes;
    hide FieldBytes;
    hide Hi;
    hide Lo;
    var r := Counter(SetCounter, 0x0102_0304, -2);
    CounterWords();
    HeadBytes(e.sync, 3, 4);
    assert Layout(e, r) == [F8(e.sync), F8(3), F16(4), F32(0x0102_0304), F32(-1), F32(0xFFFF_FFFE)];
    SixFields(F8(e.sync), F8(3), F16(4), F32(0x0102_0304), F32(-1), F32(0xFFFF_FFFE));
  }

  lemma RedirectBytes(e: Extensions)
    ensures Wire(e, Redirect(false, 0x0102_0304, 1)) == [e.composite, 2, 3, 0, 4, 3, 2, 1, 1, 0, 0, 0]
  {
    hide FieldsBytes;
    var r := Redirect(false, 0x0102_0304, 1);
    var head := [F8(e.composite), F8(2), F16(3), F32(0x0102_0304), F8(1), F8(0)];
    assert Layout(e, r) == head + [F16(0)];
    SixFields(F8(e.composite), F8(2), F16(3), F32(0x0102_0304), F8(1), F8(0));
    LastField(head, F16(0));
  }

  lemma {:induction false} LastField(fields: seq<Field>, last: Field)
    ensures FieldsBytes(fields + [last]) == FieldsBytes(fields) + FieldBytes(last)
  {
    hide FieldBytes;
    if fields == [] {
      FieldsCons(last, []);
      assert [last] + [] == fields + [last] && FieldsBytes([]) == [];
    } else {
      LastField(fields[1..], last);
      FieldsCons(fields[0], fields[1..] + [last]);
      assert fields + [last] == [fields[0]] + (fields[1..] + [last]);
    }
  }
}
