/**
 Priming the memory of a class object: the box and interface headers of the object, of
 its base classes and of the class objects embedded in it.
 */
module ClassPriming {
  import opened BoxHeaders

  // ---- memory ------------------------------------------------------------------

  const BOX_SIZE: nat := 16
  const IFACE_HDR_SIZE: nat := 16
  const POINTER_SIZE: nat := 8

  /** What the header fields hold; addresses are byte positions in the memory, 0 is null. */
  datatype Word =
    | TypePtr(classType: ClassType)
    | FlagsAndIndex(flags: set<BoxFlag>, index: BoxIndex)
    | RootOffset(bytes: nat)
    | VtablePtr(address: nat)
    | BoxPtr(address: nat)

  /** A byte of memory: cleared, one byte of a header field, or something else. */
  datatype Byte = Zero | Part(word: Word, k: nat) | Other(bits: nat)

  function Width(w: Word): (n: nat)
    ensures n == if w.FlagsAndIndex? || w.RootOffset? then 4 else POINTER_SIZE
  {
    match w
    case FlagsAndIndex(_, _) => 4
    case RootOffset(_) => 4
    case _ => POINTER_SIZE
  }

  ghost predicate Holds(m: seq<Byte>, at: nat, w: Word) {
    && at + Width(w) <= |m|
    && forall a :: at <= a < at + Width(w) ==> m[a] == Part(w, a - at)
  }

  ghost predicate Agree(m: seq<Byte>, n: seq<Byte>, lo: nat, hi: nat) {
    && hi <= |m| == |n|
    && forall a :: lo <= a < hi ==> m[a] == n[a]
  }

  // ---- class layouts -------------------------------------------------------------

  /**
   `size` counts the box, `ifaceSize` does not. `vtable` is the address of the type's own
   vtable, 0 if it has none. Base offsets and field offsets are taken from the interface.
   */
  datatype ClassType = ClassType(
    name: string,
    size: nat,
    ifaceSize: nat,
    vtable: nat,
    bases: seq<BaseSlot>,
    fields: seq<Field>)

  datatype BaseSlot = BaseSlot(baseType: ClassType, offset: nat, vtableIndex: nat)

  datatype Field = Field(fieldType: ClassType, offset: nat)

  /** The two byte ranges do not meet. */
  predicate Apart(lo: nat, size: nat, lo': nat, size': nat) {
    lo + size <= lo' || lo' + size' <= lo
  }

  /**
   Bases and embedded class objects lie inside the interface, after its header, and apart
   from each other; only the first base may share the header, with the same vtable.
   */
  ghost predicate SlotsFit(t: ClassType) {
    && IFACE_HDR_SIZE <= t.ifaceSize
    && BOX_SIZE + t.ifaceSize <= t.size
    && (forall i :: 0 <= i < |t.bases| ==>
         var b := t.bases[i];
         && b.offset + b.baseType.ifaceSize <= t.ifaceSize
         && (IFACE_HDR_SIZE <= b.offset || (i == 0 && b.offset == 0 && b.vtableIndex == 0)))
    && (forall j :: 0 <= j < |t.fields| ==>
         IFACE_HDR_SIZE <= t.fields[j].offset && t.fields[j].offset + t.fields[j].fieldType.size <= t.ifaceSize)
    && (forall i, k :: 0 <= i < k < |t.bases| ==>
         Apart(t.bases[i].offset, t.bases[i].baseType.ifaceSize, t.bases[k].offset, t.bases[k].baseType.ifaceSize))
    && (forall j, k :: 0 <= j < k < |t.fields| ==>
         Apart(t.fields[j].offset, t.fields[j].fieldType.size, t.fields[k].offset, t.fields[k].fieldType.size))
    && (forall i, j :: 0 <= i < |t.bases| && 0 <= j < |t.fields| ==>
         Apart(t.bases[i].offset, t.bases[i].baseType.ifaceSize, t.fields[j].offset, t.fields[j].fieldType.size))
  }

  ghost predicate WellFormed(t: ClassType) {
    && SlotsFit(t)
    && (forall i :: 0 <= i < |t.bases| ==> WellFormed(t.bases[i].baseType))
    && (forall j :: 0 <= j < |t.fields| ==> WellFormed(t.fields[j].fieldType))
  }

  // ---- headers ---------------------------------------------------------------------

  const PRIMED_FLAGS := {BoxFlag.ClassMark, BoxFlag.DataMark, BoxFlag.WeakMark}

  ghost predicate BoxHeader(m: seq<Byte>, box: nat, root: nat, t: ClassType)
    requires root <= box
  {
    && Holds(m, box, TypePtr(t))
    && Holds(m, box + 8, FlagsAndIndex(PRIMED_FLAGS, 0))
    && Holds(m, box + 12, RootOffset((box - root) % 0x1_0000_0000))
  }

  ghost predicate IfaceHeader(m: seq<Byte>, iface: nat, box: nat, vtable: nat) {
    && Holds(m, iface, VtablePtr(vtable))
    && Holds(m, iface + 8, BoxPtr(box))
  }

  /** The vtable an object is primed with: the given one, else the one of its type. */
  function VtableOf(t: ClassType, vtable: nat): nat {
    if vtable == 0 then t.vtable else vtable
  }

  /** The interface at `iface`, all its bases and all objects embedded in it have their headers. */
  ghost predicate PrimedIface(m: seq<Byte>, box: nat, root: nat, iface: nat, t: ClassType, vtable: nat)
    requires root <= box <= iface
    decreases t, 0
  {
    && IfaceHeader(m, iface, box, vtable)
    && (forall i :: 0 <= i < |t.bases| ==> PrimedBase(m, box, root, iface, t.bases[i], vtable))
    && (forall j :: 0 <= j < |t.fields| ==> PrimedField(m, root, iface, t.fields[j]))
  }

  ghost predicate PrimedBase(m: seq<Byte>, box: nat, root: nat, iface: nat, b: BaseSlot, vtable: nat)
    requires root <= box <= iface
    decreases b, 2
  {
    PrimedIface(m, box, root, iface + b.offset, b.baseType, vtable + POINTER_SIZE * b.vtableIndex)
  }

  ghost predicate PrimedField(m: seq<Byte>, root: nat, iface: nat, f: Field)
    requires root <= iface
    decreases f, 2
  {
    PrimedClass(m, iface + f.offset, root, f.fieldType, 0)
  }

  ghost predicate PrimedClass(m: seq<Byte>, box: nat, root: nat, t: ClassType, vtable: nat)
    requires root <= box
    decreases t, 1
  {
    && BoxHeader(m, box, root, t)
    && PrimedIface(m, box, root, box + BOX_SIZE, t, VtableOf(t, vtable))
  }

  // Priming depends on the bytes of the interface, or of the object, only.

  lemma {:induction false} IfaceFrame(m: seq<Byte>, n: seq<Byte>, box: nat, root: nat, iface: nat, t: ClassType,
                                      vtable: nat)
    requires root <= box <= iface
    requires WellFormed(t)
    requires PrimedIface(m, box, root, iface, t, vtable)
    requires Agree(m, n, iface, iface + t.ifaceSize)
    ensures PrimedIface(n, box, root, iface, t, vtable)
    decreases t, 0
  {
    forall i | 0 <= i < |t.bases| ensures PrimedBase(n, box, root, iface, t.bases[i], vtable) {
      var b := t.bases[i];
      assert PrimedBase(m, box, root, iface, b, vtable);
      IfaceFrame(m, n, box, root, iface + b.offset, b.baseType, vtable + POINTER_SIZE * b.vtableIndex);
    }
    forall j | 0 <= j < |t.fields| ensures PrimedField(n, root, iface, t.fields[j]) {
      var f := t.fields[j];
      assert PrimedField(m, root, iface, f);
      ClassFrame(m, n, iface + f.offset, root, f.fieldType, 0);
    }
  }

  lemma {:induction false} ClassFrame(m: seq<Byte>, n: seq<Byte>, box: nat, root: nat, t: ClassType, vtable: nat)
    requires root <= box
    requires WellFormed(t)
    requires PrimedClass(m, box, root, t, vtable)
    requires Agree(m, n, box, box + t.size)
    ensures PrimedClass(n, box, root, t, vtable)
    decreases t, 1
  {
    IfaceFrame(m, n, box, root, box + BOX_SIZE, t, VtableOf(t, vtable));
  }

  /** `n` is `m` after a write into `size` bytes from `lo` on. */
  ghost predicate Rewritten(m: seq<Byte>, n: seq<Byte>, lo: nat, size: nat) {
    && |m| == |n|
    && forall a :: 0 <= a < |n| && !(lo <= a < lo + size) ==> n[a] == m[a]
  }

  /** Writing one slot of an interface leaves the bases primed that are apart from it. */
  lemma BasesKept(m: seq<Byte>, n: seq<Byte>, box: nat, root: nat, iface: nat, t: ClassType, vtable: nat,
                  count: nat, lo: nat, size: nat)
    requires root <= box <= iface && iface + t.ifaceSize <= |m|
    requires WellFormed(t) && count <= |t.bases|
    requires Rewritten(m, n, iface + lo, size)
    requires forall k :: 0 <= k < count ==> Apart(t.bases[k].offset, t.bases[k].baseType.ifaceSize, lo, size)
    requires forall k :: 0 <= k < count ==> PrimedBase(m, box, root, iface, t.bases[k], vtable)
    ensures forall k :: 0 <= k < count ==> PrimedBase(n, box, root, iface, t.bases[k], vtable)
  {
    forall k | 0 <= k < count ensures PrimedBase(n, box, root, iface, t.bases[k], vtable) {
      var b := t.bases[k];
      assert PrimedBase(m, box, root, iface, b, vtable);
      IfaceFrame(m, n, box, root, iface + b.offset, b.baseType, vtable + POINTER_SIZE * b.vtableIndex);
    }
  }

  lemma FieldsKept(m: seq<Byte>, n: seq<Byte>, root: nat, iface: nat, t: ClassType, count: nat, lo: nat, size: nat)
    requires root <= iface && iface + t.ifaceSize <= |m|
    requires WellFormed(t) && count <= |t.fields|
    requires Rewritten(m, n, iface + lo, size)
    requires forall k :: 0 <= k < count ==> Apart(t.fields[k].offset, t.fields[k].fieldType.size, lo, size)
    requires forall k :: 0 <= k < count ==> PrimedField(m, root, iface, t.fields[k])
    ensures forall k :: 0 <= k < count ==> PrimedField(n, root, iface, t.fields[k])
  {
    forall k | 0 <= k < count ensures PrimedField(n, root, iface, t.fields[k]) {
      var f := t.fields[k];
      assert PrimedField(m, root, iface, f);
      ClassFrame(m, n, iface + f.offset, root, f.fieldType, 0);
    }
  }

  /** Byte `d` of an interface of type `t` belongs to some header. */
  ghost predicate IfaceHeaderByte(t: ClassType, d: nat)
    decreases t, 0
  {
    || d < IFACE_HDR_SIZE
    || (exists i :: 0 <= i < |t.bases| && BaseHeaderByte(t.bases[i], d))
    || (exists j :: 0 <= j < |t.fields| && FieldHeaderByte(t.fields[j], d))
  }

  ghost predicate BaseHeaderByte(b: BaseSlot, d: nat)
    decreases b, 2
  {
    b.offset <= d < b.offset + b.baseType.ifaceSize && IfaceHeaderByte(b.baseType, d - b.offset)
  }

  ghost predicate FieldHeaderByte(f: Field, d: nat)
    decreases f, 2
  {
    f.offset <= d < f.offset + f.fieldType.size && ClassHeaderByte(f.fieldType, d - f.offset)
  }

  /** Byte `d` of an object of type `t` belongs to some header. */
  ghost predicate ClassHeaderByte(t: ClassType, d: nat)
    decreases t, 1
  {
    || d < BOX_SIZE
    || (d < BOX_SIZE + t.ifaceSize && IfaceHeaderByte(t, d - BOX_SIZE))
  }

  // ---- what priming writes ----------------------------------------------------------

  /** From `m` to `n` only the interface was written, and its bytes outside the headers at most cleared. */
  ghost predicate OnlyHeadersWritten(m: seq<Byte>, n: seq<Byte>, iface: nat, t: ClassType) {
    && Rewritten(m, n, iface, t.ifaceSize)
    && iface + t.ifaceSize <= |n|
    && forall a :: iface <= a < iface + t.ifaceSize && !IfaceHeaderByte(t, a - iface) ==> n[a] == Zero || n[a] == m[a]
  }

  /** From `m` to `n` only the object was written, and its bytes outside the headers are clear. */
  ghost predicate ObjectWritten(m: seq<Byte>, n: seq<Byte>, box: nat, t: ClassType) {
    && Rewritten(m, n, box, t.size)
    && box + t.size <= |n|
    && forall a :: box <= a < box + t.size && !ClassHeaderByte(t, a - box) ==> n[a] == Zero
  }

  lemma BaseWritten(was: seq<Byte>, m: seq<Byte>, n: seq<Byte>, iface: nat, t: ClassType, i: nat)
    requires SlotsFit(t) && i < |t.bases|
    requires OnlyHeadersWritten(was, m, iface, t)
    requires OnlyHeadersWritten(m, n, iface + t.bases[i].offset, t.bases[i].baseType)
    ensures OnlyHeadersWritten(was, n, iface, t)
  {
    var b := t.bases[i];
    forall a | iface <= a < iface + t.ifaceSize && !IfaceHeaderByte(t, a - iface)
      ensures n[a] == Zero || n[a] == was[a]
    {
      assert !BaseHeaderByte(b, a - iface);
      assert a - iface - b.offset == a - (iface + b.offset);
    }
  }

  lemma FieldWritten(was: seq<Byte>, m: seq<Byte>, n: seq<Byte>, iface: nat, t: ClassType, j: nat)
    requires SlotsFit(t) && j < |t.fields|
    requires OnlyHeadersWritten(was, m, iface, t)
    requires ObjectWritten(m, n, iface + t.fields[j].offset, t.fields[j].fieldType)
    ensures OnlyHeadersWritten(was, n, iface, t)
  {
    var f := t.fields[j];
    forall a | iface <= a < iface + t.ifaceSize && !IfaceHeaderByte(t, a - iface)
      ensures n[a] == Zero || n[a] == was[a]
    {
      assert !FieldHeaderByte(f, a - iface);
      assert a - iface - f.offset == a - (iface + f.offset);
    }
  }

  /** The header of the interface, its first `i` bases and its first `j` embedded objects are primed. */
  ghost predicate PrimedUpTo(m: seq<Byte>, box: nat, root: nat, iface: nat, t: ClassType, vtable: nat, i: nat, j: nat)
    requires root <= box <= iface
    requires i <= |t.bases| && j <= |t.fields|
  {
    && IfaceHeader(m, iface, box, vtable)
    && (forall k :: 0 <= k < i ==> PrimedBase(m, box, root, iface, t.bases[k], vtable))
    && (forall k :: 0 <= k < j ==> PrimedField(m, root, iface, t.fields[k]))
  }

  lemma AllPrimed(m: seq<Byte>, box: nat, root: nat, iface: nat, t: ClassType, vtable: nat)
    requires root <= box <= iface
    requires PrimedUpTo(m, box, root, iface, t, vtable, |t.bases|, |t.fields|)
    ensures PrimedIface(m, box, root, iface, t, vtable)
  {
  }

  /** Priming a base leaves the header of the interface alone or writes the same header again. */
  lemma BasePrimed(m: seq<Byte>, n: seq<Byte>, box: nat, root: nat, iface: nat, t: ClassType, vtable: nat, i: nat)
    requires root <= box <= iface && iface + t.ifaceSize <= |m|
    requires WellFormed(t) && i < |t.bases|
    requires PrimedUpTo(m, box, root, iface, t, vtable, i, 0)
    requires OnlyHeadersWritten(m, n, iface + t.bases[i].offset, t.bases[i].baseType)
    requires PrimedBase(n, box, root, iface, t.bases[i], vtable)
    ensures PrimedUpTo(n, box, root, iface, t, vtable, i + 1, 0)
  {
    BasesKept(m, n, box, root, iface, t, vtable, i, t.bases[i].offset, t.bases[i].baseType.ifaceSize);
    assert IfaceHeader(n, iface, box, vtable);
  }

  lemma FieldPrimed(m: seq<Byte>, n: seq<Byte>, box: nat, root: nat, iface: nat, t: ClassType, vtable: nat, j: nat)
    requires root <= box <= iface && iface + t.ifaceSize <= |m|
    requires WellFormed(t) && j < |t.fields|
    requires PrimedUpTo(m, box, root, iface, t, vtable, |t.bases|, j)
    requires ObjectWritten(m, n, iface + t.fields[j].offset, t.fields[j].fieldType)
    requires PrimedField(n, root, iface, t.fields[j])
    ensures PrimedUpTo(n, box, root, iface, t, vtable, |t.bases|, j + 1)
  {
    var f := t.fields[j];
    BasesKept(m, n, box, root, iface, t, vtable, |t.bases|, f.offset, f.fieldType.size);
    FieldsKept(m, n, root, iface, t, j, f.offset, f.fieldType.size);
    assert IfaceHeader(n, iface, box, vtable);
  }

  lemma SlotsWellFormed(t: ClassType)
    requires WellFormed(t)
    ensures SlotsFit(t) && IFACE_HDR_SIZE <= t.ifaceSize && BOX_SIZE + t.ifaceSize <= t.size
    ensures forall i :: 0 <= i < |t.bases| ==>
              && WellFormed(t.bases[i].baseType)
              && t.bases[i].offset + t.bases[i].baseType.ifaceSize <= t.ifaceSize
    ensures forall j :: 0 <= j < |t.fields| ==>
              && WellFormed(t.fields[j].fieldType)
              && t.fields[j].offset + t.fields[j].fieldType.size <= t.ifaceSize
  {
  }

  // ---- every place in an object --------------------------------------------------------

  /** A way to go from an interface to one it contains. */
  datatype Step = ToBase(i: nat) | ToField(j: nat)

  /** An interface in an object: its address and type, the box it belongs to, the vtable it should have. */
  datatype Place = Place(box: nat, boxType: ClassType, iface: nat, ifaceType: ClassType, vtable: nat)

  /** The main interface of the object of type `t` whose box is at `box`. */
  function MainPlace(box: nat, t: ClassType, vtable: nat): Place {
    Place(box, t, box + BOX_SIZE, t, VtableOf(t, vtable))
  }

  predicate CanTake(p: Place, s: Step) {
    match s
    case ToBase(i) => i < |p.ifaceType.bases|
    case ToField(j) => j < |p.ifaceType.fields|
  }

  function Take(p: Place, s: Step): Place
    requires CanTake(p, s)
  {
    match s
    case ToBase(i) =>
      var b := p.ifaceType.bases[i];
      Place(p.box, p.boxType, p.iface + b.offset, b.baseType, p.vtable + POINTER_SIZE * b.vtableIndex)
    case ToField(j) =>
      var f := p.ifaceType.fields[j];
      MainPlace(p.iface + f.offset, f.fieldType, 0)
  }

  predicate CanFollow(p: Place, path: seq<Step>)
    decreases |path|
  {
    path == [] || (CanTake(p, path[0]) && CanFollow(Take(p, path[0]), path[1..]))
  }

  function Follow(p: Place, path: seq<Step>): Place
    requires CanFollow(p, path)
    decreases |path|
  {
    if path == [] then p else Follow(Take(p, path[0]), path[1..])
  }

  /** The interface of the place lies in its box's object. */
  ghost predicate Sound(p: Place) {
    && WellFormed(p.boxType) && WellFormed(p.ifaceType)
    && p.box + BOX_SIZE <= p.iface
    && p.iface + p.ifaceType.ifaceSize <= p.box + p.boxType.size
  }

  /** Both headers of the place are in memory, and the root is found from the box. */
  ghost predicate HeadersAt(m: seq<Byte>, root: nat, p: Place) {
    && root <= p.box
    && BoxHeader(m, p.box, root, p.boxType)
    && IfaceHeader(m, p.iface, p.box, p.vtable)
  }

  /** Byte `a` is in a header of the place. */
  predicate InHeadersOf(p: Place, a: nat) {
    p.box <= a < p.box + BOX_SIZE || p.iface <= a < p.iface + IFACE_HDR_SIZE
  }

  /** The bytes of the interface that a step leads into. */
  function RangeLo(p: Place, s: Step): nat
    requires CanTake(p, s)
  {
    p.iface + if s.ToBase? then p.ifaceType.bases[s.i].offset else p.ifaceType.fields[s.j].offset
  }

  function RangeHi(p: Place, s: Step): nat
    requires CanTake(p, s)
  {
    RangeLo(p, s) +
    if s.ToBase? then p.ifaceType.bases[s.i].baseType.ifaceSize else p.ifaceType.fields[s.j].fieldType.size
  }

  /** A step stays in the interface; a field comes with its whole object, behind the header. */
  lemma TakeStaysInside(p: Place, s: Step)
    requires Sound(p) && CanTake(p, s)
    ensures var q := Take(p, s);
      && Sound(q)
      && p.iface <= RangeLo(p, s) <= q.iface
      && q.iface + q.ifaceType.ifaceSize <= RangeHi(p, s) <= p.iface + p.ifaceType.ifaceSize
      && if s.ToBase? then q.box == p.box && q.boxType == p.boxType
         else p.iface + IFACE_HDR_SIZE <= RangeLo(p, s) == q.box && q.box + q.boxType.size == RangeHi(p, s)
  {
    SlotsWellFormed(p.ifaceType);
    if s.ToField? {
      SlotsWellFormed(p.ifaceType.fields[s.j].fieldType);
    }
  }

  /** Following a path stays in the interface; a new box comes with its whole object. */
  ghost predicate Within(q: Place, lo: nat, hi: nat, p: Place) {
    && lo <= q.iface && q.iface + IFACE_HDR_SIZE <= hi
    && ((q.box == p.box && q.boxType == p.boxType) || (lo <= q.box && q.box + q.boxType.size <= hi))
  }

  lemma {:induction false} FollowStaysInside(p: Place, path: seq<Step>)
    requires Sound(p) && CanFollow(p, path)
    ensures Sound(Follow(p, path))
    ensures Within(Follow(p, path), p.iface, p.iface + p.ifaceType.ifaceSize, p)
    ensures Follow(p, path).box == p.box || p.iface + IFACE_HDR_SIZE <= Follow(p, path).box
    ensures path != [] ==> Within(Follow(p, path), RangeLo(p, path[0]), RangeHi(p, path[0]), p)
    decreases |path|
  {
    hide WellFormed, SlotsFit, Take, RangeLo, RangeHi;
    SlotsWellFormed(p.ifaceType);
    if path != [] {
      TakeStaysInside(p, path[0]);
      FollowStaysInside(Take(p, path[0]), path[1..]);
    }
  }

  lemma StepsApart(p: Place, s: Step, s': Step)
    requires WellFormed(p.ifaceType) && CanTake(p, s) && CanTake(p, s') && s != s'
    ensures RangeHi(p, s) <= RangeLo(p, s') || RangeHi(p, s') <= RangeLo(p, s)
  {
    assert SlotsFit(p.ifaceType);
  }

  /** `m_box` of every interface is the innermost box whose object contains it. */
  lemma {:induction false} BoxIsInnermost(p: Place, path: seq<Step>, other: seq<Step>)
    requires Sound(p) && CanFollow(p, path) && CanFollow(p, other)
    ensures var q, r := Follow(p, path), Follow(p, other);
      r.box <= q.iface < r.box + r.boxType.size ==> r.box <= q.box
    decreases |other|
  {
    hide WellFormed, SlotsFit, Take, RangeLo, RangeHi;
    FollowStaysInside(p, path);
    FollowStaysInside(p, other);
    if path != [] && other != [] {
      if path[0] == other[0] {
        TakeStaysInside(p, path[0]);
        BoxIsInnermost(Take(p, path[0]), path[1..], other[1..]);
      } else {
        StepsApart(p, path[0], other[0]);
      }
    }
  }

  /** Priming reaches every place: both its headers are right once the object is primed. */
  lemma {:induction false} PrimedEverywhere(m: seq<Byte>, root: nat, p: Place, path: seq<Step>)
    requires root <= p.box <= p.iface && CanFollow(p, path)
    requires BoxHeader(m, p.box, root, p.boxType)
    requires PrimedIface(m, p.box, root, p.iface, p.ifaceType, p.vtable)
    ensures HeadersAt(m, root, Follow(p, path))
    decreases |path|
  {
    if path != [] {
      if path[0].ToBase? {
        assert PrimedBase(m, p.box, root, p.iface, p.ifaceType.bases[path[0].i], p.vtable);
      } else {
        var f := p.ifaceType.fields[path[0].j];
        assert PrimedField(m, root, p.iface, f);
        assert PrimedClass(m, p.iface + f.offset, root, f.fieldType, 0);
      }
      PrimedEverywhere(m, root, Take(p, path[0]), path[1..]);
    }
  }

  /** A header byte belongs to a place. */
  lemma {:induction false} HeaderByteHasPlace(p: Place, d: nat) returns (path: seq<Step>)
    requires IfaceHeaderByte(p.ifaceType, d)
    ensures CanFollow(p, path) && InHeadersOf(Follow(p, path), p.iface + d)
    decreases p.ifaceType
  {
    var t := p.ifaceType;
    if d < IFACE_HDR_SIZE {
      path := [];
    } else if i :| 0 <= i < |t.bases| && BaseHeaderByte(t.bases[i], d) {
      var rest := HeaderByteHasPlace(Take(p, ToBase(i)), d - t.bases[i].offset);
      path := [ToBase(i)] + rest;
      assert path[1..] == rest;
    } else {
      var j :| 0 <= j < |t.fields| && FieldHeaderByte(t.fields[j], d);
      var f := t.fields[j];
      var e := d - f.offset;
      var rest := [];
      if BOX_SIZE <= e {
        assert ClassHeaderByte(f.fieldType, e);
        rest := HeaderByteHasPlace(Take(p, ToField(j)), e - BOX_SIZE);
      }
      path := [ToField(j)] + rest;
      assert path[1..] == rest;
    }
  }

  lemma HeaderByteIsInSomePlace(box: nat, t: ClassType, vtable: nat, a: nat)
    requires box <= a && ClassHeaderByte(t, a - box)
    ensures var main := MainPlace(box, t, vtable);
      exists path {:trigger CanFollow(main, path)} :: CanFollow(main, path) && InHeadersOf(Follow(main, path), a)
  {
    var main := MainPlace(box, t, vtable);
    if a - box < BOX_SIZE {
      assert CanFollow(main, []) && InHeadersOf(Follow(main, []), a);
    } else {
      var path := HeaderByteHasPlace(main, a - box - BOX_SIZE);
      assert CanFollow(main, path) && InHeadersOf(Follow(main, path), a);
    }
  }

  /** Everywhere in the object: the right headers, inside the object of the box, which is the innermost one. */
  ghost predicate EveryPlacePrimed(m: seq<Byte>, root: nat, main: Place) {
    forall path {:trigger CanFollow(main, path)} :: CanFollow(main, path) ==>
      && Sound(Follow(main, path))
      && HeadersAt(m, root, Follow(main, path))
      && Innermost(main, Follow(main, path))
  }

  ghost predicate Innermost(main: Place, q: Place) {
    forall other {:trigger CanFollow(main, other)} :: CanFollow(main, other) ==>
      var r := Follow(main, other);
      r.box <= q.iface < r.box + r.boxType.size ==> r.box <= q.box
  }

  /** Every byte of the object that is in no header is clear. */
  ghost predicate ClearElsewhere(m: seq<Byte>, main: Place) {
    forall a :: main.box <= a < main.box + main.boxType.size && a < |m| && m[a] != Zero ==>
      exists path {:trigger CanFollow(main, path)} :: CanFollow(main, path) && InHeadersOf(Follow(main, path), a)
  }

  lemma PrimedObject(was: seq<Byte>, m: seq<Byte>, box: nat, root: nat, t: ClassType, vtable: nat)
    requires root <= box && WellFormed(t)
    requires PrimedClass(m, box, root, t, vtable)
    requires ObjectWritten(was, m, box, t)
    ensures EveryPlacePrimed(m, root, MainPlace(box, t, vtable))
    ensures ClearElsewhere(m, MainPlace(box, t, vtable))
  {
    var main := MainPlace(box, t, vtable);
    SlotsWellFormed(t);
    forall path | CanFollow(main, path)
      ensures Sound(Follow(main, path))
      ensures HeadersAt(m, root, Follow(main, path)) && Innermost(main, Follow(main, path))
    {
      FollowStaysInside(main, path);
      PrimedEverywhere(m, root, main, path);
      forall other | CanFollow(main, other)
        ensures var q, r := Follow(main, path), Follow(main, other);
          r.box <= q.iface < r.box + r.boxType.size ==> r.box <= q.box
      {
        BoxIsInnermost(main, path, other);
      }
    }
    forall a | box <= a < box + t.size && m[a] != Zero
      ensures exists path {:trigger CanFollow(main, path)} :: CanFollow(main, path) && InHeadersOf(Follow(main, path), a)
    {
      HeaderByteIsInSomePlace(box, t, vtable, a);
    }
  }

  /** The 32-bit root offset of a box leads back to the root exactly when the distance fits. */
  lemma RootOffsetLeadsToRoot(m: seq<Byte>, root: nat, main: Place, path: seq<Step>)
    requires EveryPlacePrimed(m, root, main) && CanFollow(main, path)
    ensures var q := Follow(main, path);
      Holds(m, q.box + 12, RootOffset(q.box - root)) <==> q.box - root < 0x1_0000_0000
  {
    var q := Follow(main, path);
    var stored := RootOffset((q.box - root) % 0x1_0000_0000);
    assert Holds(m, q.box + 12, stored);
    assert m[q.box + 12] == Part(stored, 0);
  }

  /** At a distance of 2^32 from the root of its object an embedded box takes itself for the root. */
  lemma RootOffsetWraps(m: seq<Byte>, main: Place, path: seq<Step>)
    requires EveryPlacePrimed(m, main.box, main) && CanFollow(main, path)
    requires Follow(main, path).box == main.box + 0x1_0000_0000
    ensures var q := Follow(main, path);
      Holds(m, q.box + 12, RootOffset(0)) && !Holds(m, q.box + 12, RootOffset(q.box - main.box))
  {
    RootOffsetLeadsToRoot(m, main.box, main, path);
  }

  const SMALL := ClassType("Small", BOX_SIZE + IFACE_HDR_SIZE, IFACE_HDR_SIZE, 0, [], [])

  /** A class with an embedded object behind so much else that its box comes to lie 2^32 bytes from the object's own. */
  const LARGE := ClassType("Large", BOX_SIZE + 0x1_0000_0010, 0x1_0000_0010, 0, [], [Field(SMALL, 0xffff_fff0)])

  /** Such an object, primed as its own root. */
  lemma EmbeddedBoxLosesRoot(m: seq<Byte>, box: nat, vtable: nat)
    requires EveryPlacePrimed(m, box, MainPlace(box, LARGE, vtable))
    ensures WellFormed(LARGE)
    ensures var main, path := MainPlace(box, LARGE, vtable), [ToField(0)];
      && CanFollow(main, path) && Follow(main, path).boxType == SMALL
      && var q := Follow(main, path);
         Holds(m, q.box + 12, RootOffset(0)) && !Holds(m, q.box + 12, RootOffset(q.box - box))
  {
    var main, path := MainPlace(box, LARGE, vtable), [ToField(0)];
    assert path[1..] == [] && Follow(main, path) == Take(main, ToField(0));
    RootOffsetWraps(m, main, path);
  }

  // ---- the same byte by byte ------------------------------------------------------------

  /** `q` is a base of the interface at `p`, or the object in one of its fields. */
  ghost predicate Contains(p: Place, q: Place) {
    || (exists i :: 0 <= i < |p.ifaceType.bases| && IsBase(p, p.ifaceType.bases[i], q))
    || (exists j :: 0 <= j < |p.ifaceType.fields| && IsEmbedded(p, p.ifaceType.fields[j], q))
  }

  /** A base has the box of the interface, and the entries of its vtable from the index of its slot on. */
  ghost predicate IsBase(p: Place, b: BaseSlot, q: Place) {
    q == Place(p.box, p.boxType, p.iface + b.offset, b.baseType, p.vtable + 8 * b.vtableIndex)
  }

  /** An embedded object has its own box, and behind it the interface with the vtable of its type. */
  ghost predicate IsEmbedded(p: Place, f: Field, q: Place) {
    q == Place(p.iface + f.offset, f.fieldType, p.iface + f.offset + 16, f.fieldType, f.fieldType.vtable)
  }

  /** Each place lies in the one before. */
  ghost predicate Descent(places: seq<Place>) {
    places != [] && forall i: nat :: i + 1 < |places| ==> DescentAt(places, i)
  }

  ghost predicate Starts(places: seq<Place>, p: Place) {
    places != [] && places[0] == p
  }

  ghost predicate DescentAt(places: seq<Place>, i: nat)
    requires i + 1 < |places|
  {
    Contains(places[i], places[i + 1])
  }

  /** The fields of both headers: type, flags and root offset of the box, vtable and box of the interface. */
  ghost predicate InMemory(m: seq<Byte>, root: nat, p: Place) {
    && root <= p.box && p.box + 16 <= p.iface && p.iface + 16 <= |m|
    && (forall a :: p.box <= a < p.box + 8 ==> m[a] == Part(TypePtr(p.boxType), a - p.box))
    && (forall a :: p.box + 8 <= a < p.box + 12 ==>
          m[a] == Part(FlagsAndIndex({BoxFlag.ClassMark, BoxFlag.DataMark, BoxFlag.WeakMark}, 0), a - p.box - 8))
    && (forall a :: p.box + 12 <= a < p.box + 16 ==>
          m[a] == Part(RootOffset((p.box - root) % 0x1_0000_0000), a - p.box - 12))
    && (forall a :: p.iface <= a < p.iface + 8 ==> m[a] == Part(VtablePtr(p.vtable), a - p.iface))
    && (forall a :: p.iface + 8 <= a < p.iface + 16 ==> m[a] == Part(BoxPtr(p.box), a - p.iface - 8))
  }

  lemma HeadersAreInMemory(m: seq<Byte>, root: nat, p: Place)
    requires Sound(p) && HeadersAt(m, root, p)
    ensures InMemory(m, root, p)
  {
    hide WellFormed;
  }

  lemma ContainedIsTaken(p: Place, q: Place) returns (s: Step)
    requires Contains(p, q)
    ensures CanTake(p, s) && Take(p, s) == q
  {
    if i: nat :| i < |p.ifaceType.bases| && IsBase(p, p.ifaceType.bases[i], q) {
      s := ToBase(i);
    } else {
      var j: nat :| j < |p.ifaceType.fields| && IsEmbedded(p, p.ifaceType.fields[j], q);
      s := ToField(j);
    }
  }

  lemma {:induction false} DescentIsPath(places: seq<Place>) returns (path: seq<Step>)
    requires Descent(places)
    ensures CanFollow(places[0], path) && Follow(places[0], path) == places[|places| - 1]
    decreases |places|
  {
    if |places| == 1 {
      path := [];
    } else {
      assert DescentAt(places, 0);
      var s := ContainedIsTaken(places[0], places[1]);
      forall i: nat | i + 1 < |places[1..]| ensures DescentAt(places[1..], i) {
        assert DescentAt(places, i + 1);
      }
      var rest := DescentIsPath(places[1..]);
      path := [s] + rest;
      assert path[1..] == rest;
    }
  }

  /** Whatever lies in the object, at any depth, has the headers that its place asks for. */
  ghost predicate DescentsInMemory(m: seq<Byte>, root: nat, main: Place) {
    forall places :: Descent(places) && Starts(places, main) ==> InMemory(m, root, places[|places| - 1])
  }

  lemma {:induction false} PathIsDescent(p: Place, path: seq<Step>) returns (places: seq<Place>)
    requires CanFollow(p, path)
    ensures Descent(places) && Starts(places, p) && places[|places| - 1] == Follow(p, path)
    decreases |path|
  {
    if path == [] {
      places := [p];
    } else {
      var q := Take(p, path[0]);
      TakenIsContained(p, path[0]);
      var rest := PathIsDescent(q, path[1..]);
      places := [p] + rest;
      forall i: nat | i + 1 < |places| ensures DescentAt(places, i) {
        if i > 0 {
          assert DescentAt(rest, i - 1);
        }
      }
    }
  }

  lemma TakenIsContained(p: Place, s: Step)
    requires CanTake(p, s)
    ensures Contains(p, Take(p, s))
  {
    match s
    case ToBase(i) => assert IsBase(p, p.ifaceType.bases[i], Take(p, s));
    case ToField(j) => assert IsEmbedded(p, p.ifaceType.fields[j], Take(p, s));
  }

  /** A byte of the object that is not clear is in one of the headers at some depth. */
  ghost predicate ClearOutsideDescents(m: seq<Byte>, main: Place) {
    forall a :: main.box <= a < main.box + main.boxType.size && a < |m| && m[a] != Zero ==> InDescent(main, a)
  }

  ghost predicate InDescent(main: Place, a: nat) {
    exists places :: Descent(places) && Starts(places, main) && InLastHeaders(places, a)
  }

  ghost predicate InLastHeaders(places: seq<Place>, a: nat)
    requires places != []
  {
    var q := places[|places| - 1];
    q.box <= a < q.box + 16 || q.iface <= a < q.iface + 16
  }

  lemma ClearIsOutside(m: seq<Byte>, main: Place)
    requires ClearElsewhere(m, main)
    ensures ClearOutsideDescents(m, main)
  {
    hide Descent, CanFollow, Follow;
    forall a: nat | main.box <= a < main.box + main.boxType.size && a < |m| && m[a] != Zero
      ensures InDescent(main, a)
    {
      var path {:trigger CanFollow(main, path)} :| CanFollow(main, path) && InHeadersOf(Follow(main, path), a);
      var places := PathIsDescent(main, path);
      assert InLastHeaders(places, a);
    }
  }

  lemma PrimedInMemory(m: seq<Byte>, root: nat, main: Place)
    requires EveryPlacePrimed(m, root, main)
    ensures DescentsInMemory(m, root, main) && InMemory(m, root, main)
  {
    hide InMemory, HeadersAt, Innermost, Sound, Descent;
    assert CanFollow(main, []) && Follow(main, []) == main;
    HeadersAreInMemory(m, root, main);
    forall places | Descent(places) && Starts(places, main)
      ensures InMemory(m, root, places[|places| - 1])
    {
      var path := DescentIsPath(places);
      HeadersAreInMemory(m, root, Follow(main, path));
    }
  }

  // ---- priming -----------------------------------------------------------------------

  method Store(mem: array<Byte>, at: nat, w: Word)
    requires at + Width(w) <= mem.Length
    modifies mem
    ensures Holds(mem[..], at, w)
    ensures forall a :: 0 <= a < mem.Length && !(at <= a < at + Width(w)) ==> mem[a] == old(mem[a])
  {
    forall a | at <= a < at + Width(w) {
      mem[a] := Part(w, a - at);
    }
  }

  method Clear(mem: array<Byte>, at: nat, size: nat)
    requires at + size <= mem.Length
    modifies mem
    ensures forall a :: at <= a < at + size ==> mem[a] == Zero
    ensures forall a :: 0 <= a < mem.Length && !(at <= a < at + size) ==> mem[a] == old(mem[a])
  {
    forall a | at <= a < at + size {
      mem[a] := Zero;
    }
  }

  method StoreIfaceHeader(mem: array<Byte>, box: nat, ghost root: nat, iface: nat, ghost t: ClassType, vtable: nat)
    requires root <= box <= iface && SlotsFit(t)
    requires iface + t.ifaceSize <= mem.Length
    modifies mem
    ensures PrimedUpTo(mem[..], box, root, iface, t, vtable, 0, 0)
    ensures OnlyHeadersWritten(old(mem[..]), mem[..], iface, t)
  {
    Store(mem, iface, VtablePtr(vtable));
    Store(mem, iface + 8, BoxPtr(box));
  }

  method PrimeIface(mem: array<Byte>, box: nat, root: nat, iface: nat, t: ClassType, vtable: nat)
    requires root <= box <= iface
    requires WellFormed(t)
    requires iface + t.ifaceSize <= mem.Length
    modifies mem
    ensures PrimedIface(mem[..], box, root, iface, t, vtable)
    ensures OnlyHeadersWritten(old(mem[..]), mem[..], iface, t)
    decreases t, 0
  {
    hide EveryPlacePrimed, ClearElsewhere, DescentsInMemory, ClearOutsideDescents;
    hide PrimedUpTo, PrimedIface, PrimedClass, OnlyHeadersWritten, ObjectWritten, WellFormed, SlotsFit;
    SlotsWellFormed(t);
    ghost var was := mem[..];
    StoreIfaceHeader(mem, box, root, iface, t, vtable);
    var i := 0;
    while i < |t.bases|
      invariant 0 <= i <= |t.bases|
      invariant PrimedUpTo(mem[..], box, root, iface, t, vtable, i, 0)
      invariant OnlyHeadersWritten(was, mem[..], iface, t)
    {
      ghost var before := mem[..];
      var b := t.bases[i];
      PrimeIface(mem, box, root, iface + b.offset, b.baseType, vtable + POINTER_SIZE * b.vtableIndex);
      BasePrimed(before, mem[..], box, root, iface, t, vtable, i);
      BaseWritten(was, before, mem[..], iface, t, i);
      i := i + 1;
    }
    var j := 0;
    while j < |t.fields|
      invariant 0 <= j <= |t.fields|
      invariant PrimedUpTo(mem[..], box, root, iface, t, vtable, |t.bases|, j)
      invariant OnlyHeadersWritten(was, mem[..], iface, t)
    {
      ghost var before := mem[..];
      var f := t.fields[j];
      PrimeClass(mem, iface + f.offset, root, f.fieldType, 0);
      FieldPrimed(before, mem[..], box, root, iface, t, vtable, j);
      FieldWritten(was, before, mem[..], iface, t, j);
      j := j + 1;
    }
    AllPrimed(mem[..], box, root, iface, t, vtable);
  }

  method PrimeClass(mem: array<Byte>, box: nat, root: nat, t: ClassType, vtable: nat)
    requires root <= box
    requires WellFormed(t)
    requires box + t.size <= mem.Length
    modifies mem
    ensures PrimedClass(mem[..], box, root, t, vtable)
    ensures ObjectWritten(old(mem[..]), mem[..], box, t)
    ensures EveryPlacePrimed(mem[..], root, MainPlace(box, t, vtable))
    ensures ClearElsewhere(mem[..], MainPlace(box, t, vtable))
    ensures forall a :: box + 16 <= a < box + 24 ==>
              mem[a] == Part(VtablePtr(if vtable == 0 then t.vtable else vtable), a - box - 16)
    ensures DescentsInMemory(mem[..], root, Place(box, t, box + 16, t, if vtable == 0 then t.vtable else vtable))
    ensures ClearOutsideDescents(mem[..], Place(box, t, box + 16, t, if vtable == 0 then t.vtable else vtable))
    ensures forall a :: 0 <= a < mem.Length && !(box <= a < box + t.size) ==> mem[a] == old(mem[a])
    decreases t, 1
  {
    hide ClearOutsideDescents, DescentsInMemory, InMemory, EveryPlacePrimed, ClearElsewhere, WellFormed, SlotsFit;
    SlotsWellFormed(t);
    ghost var was := mem[..];
    var vt := vtable;
    if vt == 0 {
      vt := t.vtable;
    }
    Clear(mem, box, t.size);
    Store(mem, box, TypePtr(t));
    Store(mem, box + 8, FlagsAndIndex(PRIMED_FLAGS, 0));
    Store(mem, box + 12, RootOffset((box - root) % 0x1_0000_0000));
    ghost var cleared := mem[..];
    PrimeIface(mem, box, root, box + BOX_SIZE, t, vt);
    forall a | box <= a < box + t.size && !ClassHeaderByte(t, a - box)
      ensures mem[a] == Zero
    {
      assert cleared[a] == Zero;
      assert a < box + BOX_SIZE + t.ifaceSize ==> !IfaceHeaderByte(t, a - box - BOX_SIZE);
      assert a - box - BOX_SIZE == a - (box + BOX_SIZE);
    }
    PrimedObject(was, mem[..], box, root, t, vtable);
    MainInMemory(mem[..], root, box, t, vtable);
  }

  lemma MainInMemory(m: seq<Byte>, root: nat, box: nat, t: ClassType, vtable: nat)
    requires EveryPlacePrimed(m, root, MainPlace(box, t, vtable)) && box + 32 <= |m|
    requires ClearElsewhere(m, MainPlace(box, t, vtable))
    ensures forall a :: box + 16 <= a < box + 24 ==>
              m[a] == Part(VtablePtr(if vtable == 0 then t.vtable else vtable), a - box - 16)
    ensures DescentsInMemory(m, root, Place(box, t, box + 16, t, if vtable == 0 then t.vtable else vtable))
    ensures ClearOutsideDescents(m, Place(box, t, box + 16, t, if vtable == 0 then t.vtable else vtable))
  {
    hide EveryPlacePrimed, DescentsInMemory, ClearElsewhere, ClearOutsideDescents;
    ClearIsOutside(m, MainPlace(box, t, vtable));
    PrimedInMemory(m, root, MainPlace(box, t, vtable));
  }
}
