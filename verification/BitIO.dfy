/** The writer and the reader of interleaved streams, and why the reader is always where the writer was. */
module BitIO {
  import opened PrefixCodes
  import opened CanonicalCodes
  import opened Registers
  import opened BitStreams

  /** What has been written: the bits of all fields, the offsets of the 16-bit words reserved for them, the number of
      bytes in use and the bytes written as such, by offset. */
  datatype Stream = Stream(bits: seq<bool>, places: seq<nat>, size: nat, raw: map<nat, Byte>)

  ghost function Start(): Stream { Stream([], [0, 2], 4, map[]) }

  /** A field that does not fit into the current word makes the next word current and reserves another one. */
  ghost function AddField(s: Stream, w: seq<bool>): Stream {
    if |s.bits| + |w| <= 16 * (|s.places| - 1) then s.(bits := s.bits + w)
    else Stream(s.bits + w, s.places + [s.size], s.size + 2, s.raw)
  }

  ghost function AddByte(s: Stream, b: Byte): Stream {
    s.(size := s.size + 1, raw := s.raw[s.size := b])
  }

  /** Room left in the current word. */
  ghost function Free(s: Stream): int { 16 * (|s.places| - 1) - |s.bits| }

  /** Words and bytes do not overlap. */
  ghost predicate Layout(s: Stream) {
    && 2 <= |s.places| && 0 <= Free(s) <= 16
    && (forall i :: 0 <= i < |s.places| ==> s.places[i] + 2 <= s.size)
    && (forall i, j :: 0 <= i < j < |s.places| ==> s.places[i] + 2 <= s.places[j])
    && (forall o :: o in s.raw ==> o < s.size)
    && (forall o, i :: o in s.raw && 0 <= i < |s.places| ==> o < s.places[i] || s.places[i] + 2 <= o)
  }

  ghost function Padded(s: Stream): (p: seq<bool>)
    requires |s.bits| <= 16 * |s.places|
    ensures |p| == 16 * |s.places| && s.bits <= p
  {
    s.bits + Zeros(16 * |s.places| - |s.bits|)
  }

  ghost function WordAt(out: seq<Byte>, p: nat): nat {
    if p + 1 < |out| then out[p] as int + 256 * (out[p + 1] as int) else 0
  }

  /** The first `done` words hold the bits of `all`. */
  ghost predicate Stored(out: seq<Byte>, places: seq<nat>, all: seq<bool>, done: nat) {
    && done <= |places| && 16 * done <= |all|
    && forall i :: 0 <= i < done ==> WordAt(out, places[i]) == Value(all[16 * i..16 * i + 16])
  }

  ghost predicate Holds(out: seq<Byte>, raw: map<nat, Byte>) {
    forall o :: o in raw ==> o < |out| && out[o] == raw[o]
  }

  /** The finished output. */
  ghost predicate Image(out: seq<Byte>, s: Stream) {
    && Layout(s) && |out| == s.size && Stored(out, s.places, Padded(s), |s.places|) && Holds(out, s.raw)
  }

  // ----- the writer -----

  /** A writer in the middle of a stream: all words before the current one are stored, and the low bits of `mask` are
      the bits for the current one. */
  ghost predicate Writing(s: Stream, out: seq<Byte>, mask: nat, free: int) {
    && Layout(s) && |out| == s.size && free == Free(s)
    && Stored(out, s.places, s.bits, |s.places| - 2) && Holds(out, s.raw)
    && Collecting(mask, Current(s))
  }

  ghost function Current(s: Stream): (c: seq<bool>)
    requires Layout(s)
    ensures |c| == 16 - Free(s)
  {
    s.bits[16 * (|s.places| - 2)..]
  }

  /** The 16-bit value stored at `p`, low byte first. */
  function Poke(out: seq<Byte>, p: nat, v: nat): (r: seq<Byte>)
    requires p + 2 <= |out| && v < 0x10000
    ensures |r| == |out| && WordAt(r, p) == v
    ensures forall o :: 0 <= o < |out| && (o < p || p + 2 <= o) ==> r[o] == out[o]
  {
    out[p := v % 256][p + 1 := v / 256]
  }

  lemma StoredBits(out: seq<Byte>, places: seq<nat>, all: seq<bool>, all': seq<bool>, done: nat)
    requires Stored(out, places, all, done) && all <= all'
    ensures Stored(out, places, all', done)
  {
    forall i | 0 <= i < done ensures all'[16 * i..16 * i + 16] == all[16 * i..16 * i + 16] {
    }
  }

  lemma StoredPlaces(out: seq<Byte>, places: seq<nat>, places': seq<nat>, all: seq<bool>, done: nat)
    requires Stored(out, places, all, done) && places <= places'
    ensures Stored(out, places', all, done)
  {
  }

  lemma StoredLonger(out: seq<Byte>, out': seq<Byte>, s: Stream, all: seq<bool>, done: nat)
    requires Layout(s) && |out| == s.size && out <= out' && Stored(out, s.places, all, done)
    ensures Stored(out', s.places, all, done)
  {
    forall i | 0 <= i < done ensures WordAt(out', s.places[i]) == WordAt(out, s.places[i]) {
      assert s.places[i] + 2 <= s.size;
    }
  }

  /** One word more, stored where nothing else is. */
  lemma StoreWord(out: seq<Byte>, s: Stream, all: seq<bool>, k: nat, v: nat)
    requires Layout(s) && |out| == s.size && k < |s.places| && Stored(out, s.places, all, k) && Holds(out, s.raw)
    requires 16 * k + 16 <= |all| && v == Value(all[16 * k..16 * k + 16]) && v < 0x10000
    ensures s.places[k] + 2 <= |out|
    ensures Stored(Poke(out, s.places[k], v), s.places, all, k + 1) && Holds(Poke(out, s.places[k], v), s.raw)
  {
    hide Poke, Value;
    var r := Poke(out, s.places[k], v);
    forall i | 0 <= i < k + 1 ensures WordAt(r, s.places[i]) == Value(all[16 * i..16 * i + 16]) {
      if i < k {
        assert s.places[i] + 2 <= s.places[k];
      }
    }
  }

  /** Appending a field to the current word. */
  lemma FieldWithin(s: Stream, w: seq<bool>)
    requires |w| <= Free(s)
    ensures AddField(s, w) == s.(bits := s.bits + w) && Free(AddField(s, w)) == Free(s) - |w|
  {
  }

  lemma FieldFits(s: Stream, out: seq<Byte>, mask: nat, free: int, w: seq<bool>)
    requires Writing(s, out, mask, free) && |w| <= free && |w| <= 15
    ensures Writing(AddField(s, w), out, Joined(mask, |w|, Value(w)), free - |w|)
  {
    hide Value, Stored, Holds, Layout, Collecting, Joined, Current, AddField, Free;
    LayoutField(s, w);
    WritingFacts(s, out, mask, free);
    FieldWithin(s, w);
    CollectMore(mask, Current(s), w);
    CurrentGrows(s, w);
    StoredBits(out, s.places, s.bits, s.bits + w, |s.places| - 2);
  }

  lemma TailOfJoin<T>(a: seq<T>, b: seq<T>, k: nat)
    requires k <= |a|
    ensures (a + b)[k..] == a[k..] + b
  {
  }

  lemma TailOfTail<T>(a: seq<T>, b: seq<T>, k: nat)
    requires |a| <= k <= |a| + |b|
    ensures (a + b)[k..] == b[k - |a|..]
  {
  }

  /** How the current word changes with a field. */
  lemma CurrentGrows(s: Stream, w: seq<bool>)
    requires Layout(s) && Layout(AddField(s, w))
    ensures |w| <= Free(s) ==> Current(AddField(s, w)) == Current(s) + w
    ensures |w| > Free(s) ==> Current(AddField(s, w)) == w[Free(s)..]
  {
    hide Layout;
    LayoutFacts(s);
    if |w| <= Free(s) {
      TailOfJoin(s.bits, w, 16 * (|s.places| - 2));
    } else {
      LayoutFacts(AddField(s, w));
      TailOfTail(s.bits, w, 16 * (|s.places| - 1));
    }
  }

  /** Storing the completed word. */
  lemma WordStored(s: Stream, out: seq<Byte>, mask: nat, free: nat, w: seq<bool>, v: nat)
    requires free < |w| <= 15 && Writing(s, out, mask, free) && v == Value(Current(s) + w[..free]) < 0x10000
    ensures 2 <= |s.places| && s.places[|s.places| - 2] + 2 <= |out|
    ensures Stored(Poke(out, s.places[|s.places| - 2], v), s.places, s.bits + w, |s.places| - 1)
    ensures Holds(Poke(out, s.places[|s.places| - 2], v), s.raw)
  {
    hide Value, Poke, Stored, Holds, Layout, Collecting;
    WritingFacts(s, out, mask, free);
    var k := |s.places| - 2;
    assert (s.bits + w)[16 * k..16 * k + 16] == Current(s) + w[..free];
    StoredBits(out, s.places, s.bits, s.bits + w, k);
    StoreWord(out, s, s.bits + w, k, v);
  }

  /** A field that spans two words: the current one is stored, and the rest begins the next one. */
  lemma FieldSpans(s: Stream, out: seq<Byte>, mask: nat, free: nat, w: seq<bool>, r: seq<Byte>, lo: Byte, hi: Byte)
    requires free < |w| <= 15 && Writing(s, out, mask, free) && |r| == |out|
    requires Stored(r, s.places, s.bits + w, |s.places| - 1) && Holds(r, s.raw) && Collecting(Value(w), w[free..])
    ensures Writing(AddField(s, w), r + [lo, hi], Value(w), free + 16 - |w|)
  {
    hide Value, Stored, Holds, Layout, Collecting, Current;
    WritingFacts(s, out, mask, free);
    LayoutField(s, w);
    CurrentGrows(s, w);
    var t := AddField(s, w);
    StoredLonger(r, r + [lo, hi], s, s.bits + w, |s.places| - 1);
    StoredPlaces(r + [lo, hi], s.places, t.places, t.bits, |s.places| - 1);
    HoldsLonger(r, r + [lo, hi], s.raw);
  }

  lemma HoldsLonger(out: seq<Byte>, out': seq<Byte>, raw: map<nat, Byte>)
    requires Holds(out, raw) && out <= out'
    ensures Holds(out', raw)
  {
  }

  class BitWriter {
    var out: seq<Byte>
    var ptr1: nat
    var ptr2: nat
    var mask: nat
    var free: nat
    ghost var s: Stream

    ghost predicate Valid()
      reads this
    {
      && Writing(s, out, mask, free)
      && ptr1 == s.places[|s.places| - 2] && ptr2 == s.places[|s.places| - 1]
    }

    constructor ()
      ensures Valid() && s == Start()
    {
      out, ptr1, ptr2, mask, free := [0, 0, 0, 0], 0, 2, 0, 16;
      s := Start();
      new;
      StartWriting();
    }

    /** Writes the `width` bits of `value`. */
    method Put(value: nat, width: nat)
      requires Valid() && width <= 15 && value < Pow2(width)
      modifies this
      ensures Valid() && s == AddField(old(s), Word(value, width))
    {
      hide Pow2, Writing, Word, Poke, Stored, Holds, Value, Layout, Collecting, Joined, Upper, Low16;
      ghost var w := Word(value, width);
      ValueOfWord(value, width);
      WritingFacts(s, out, mask, free);
      if free < width {
        CollectSpill(mask, Current(s), w, free);
        var v := Low16(Joined(mask, free, Upper(value, width - free)));
        WordStored(s, out, mask, free, w, v);
        FieldSpans(s, out, mask, free, w, Poke(out, ptr1, v), 0, 0);
        out := Poke(out, ptr1, v);
        mask := value;
        free := free + 16 - width;
        ptr1 := ptr2;
        ptr2 := |out|;
        out := out + [0, 0];
      } else {
        FieldFits(s, out, mask, free, w);
        mask := Joined(mask, width, value);
        free := free - width;
      }
      s := AddField(s, w);
    }

    method PutByte(b: Byte)
      requires Valid()
      modifies this
      ensures Valid() && s == AddByte(old(s), b)
    {
      hide Writing;
      ByteWritten(s, out, mask, free, b);
      out := out + [b];
      s := AddByte(s, b);
    }

    method Finish()
      requires Valid()
      modifies this
      ensures Image(out, s) && s == old(s)
    {
      hide Writing, Poke, Image, Low16, Joined, Layout;
      WritingFacts(s, out, mask, free);
      Finishes(s, out, mask, free);
      out := Poke(out, ptr1, Low16(Joined(mask, free, 0)));
      out := Poke(out, ptr2, 0);
    }
  }

  lemma StartWriting()
    ensures Writing(Start(), [0, 0, 0, 0], 0, 16)
  {
    hide Collecting, Layout, Current;
    StartLayout();
    CollectNothing();
    CurrentStarts();
  }

  lemma CurrentStarts()
    requires Layout(Start())
    ensures Current(Start()) == []
  {
  }

  lemma WritingFacts(s: Stream, out: seq<Byte>, mask: nat, free: int)
    requires Writing(s, out, mask, free)
    ensures Layout(s) && 2 <= |s.places| && 0 <= free == Free(s) <= 16 && |out| == s.size
            && Collecting(mask, Current(s))
  {
  }

  lemma ByteWritten(s: Stream, out: seq<Byte>, mask: nat, free: int, b: Byte)
    requires Writing(s, out, mask, free)
    ensures Writing(AddByte(s, b), out + [b], mask, free)
  {
    hide Collecting;
    StoredLonger(out, out + [b], s, s.bits, |s.places| - 2);
    assert Current(AddByte(s, b)) == Current(s);
  }

  /** The last word is filled up with zeros and the one reserved after it is zero. */
  lemma Finishes(s: Stream, out: seq<Byte>, mask: nat, free: nat)
    requires Writing(s, out, mask, free)
    ensures 2 <= |s.places| && s.places[|s.places| - 2] + 2 <= |out| && s.places[|s.places| - 1] + 2 <= |out|
    ensures Low16(Joined(mask, free, 0)) < 0x10000
    ensures Image(Poke(Poke(out, s.places[|s.places| - 2], Low16(Joined(mask, free, 0))), s.places[|s.places| - 1],
                       0), s)
  {
    hide Collecting, Value, Poke, Layout, Stored, Holds, Low16, Joined;
    WritingFacts(s, out, mask, free);
    var k, all := |s.places| - 2, Padded(s);
    StoredBits(out, s.places, s.bits, all, k);
    CollectEnd(mask, Current(s), free);
    assert all[16 * k..16 * k + 16] == Current(s) + Zeros(free);
    var v := Low16(Joined(mask, free, 0));
    StoreWord(out, s, all, k, v);
    assert all[16 * (k + 1)..16 * (k + 1) + 16] == Zeros(16);
    ValueOfZeros(16);
    StoreWord(Poke(out, s.places[k], v), s, all, k + 1, 0);
  }

  // ----- the reader -----

  /** The decoder's registers: its source offset, the next bits at the top of a 32-bit mask, and how many bits beyond 16
      the mask has. */
  datatype Reader = Reader(pos: nat, mask: nat, free: int)

  function Open(src: seq<Byte>): Reader
    requires 4 <= |src|
  {
    Reader(4, Peek(src, 0) * 0x10000 + Peek(src, 2), 16)
  }

  /** Loads a word if fewer than 16 bits are left; fails if the source has none. */
  function Refill(src: seq<Byte>, r: Reader): Option<Reader> {
    if r.free >= 0 then Some(r)
    else if r.pos + 1 >= |src| then None
    else Some(Reader(r.pos + 2, Low32(Joined(Peek(src, r.pos), -r.free, r.mask)), r.free + 16))
  }

  /** Drops `n` bits. */
  function Drop(r: Reader, n: nat): Reader {
    Reader(r.pos, Shifted(r.mask, n), r.free - n)
  }

  /** `f` is a later state of the stream `s`. */
  ghost predicate Extends(s: Stream, f: Stream) {
    && s.bits <= f.bits && s.places <= f.places && s.size <= f.size
    && forall o :: o in s.raw ==> o in f.raw && f.raw[o] == s.raw[o]
  }

  /** The reader of the finished stream `f` is where the writer was when it had written `s`. */
  ghost predicate InSync(src: seq<Byte>, r: Reader, s: Stream, f: Stream) {
    && Image(src, f) && Layout(s) && Extends(s, f)
    && r.pos == s.size && r.free == Free(s)
    && r.mask == Aligned(Ahead(s, f))
  }

  /** The bits the reader has loaded and not used. */
  ghost function Ahead(s: Stream, f: Stream): (t: seq<bool>)
    requires Layout(f) && Layout(s) && Extends(s, f)
    ensures |t| == 16 + Free(s)
  {
    Padded(f)[|s.bits|..16 * |s.places|]
  }

  lemma OpenInSync(src: seq<Byte>, f: Stream)
    requires Image(src, f) && Extends(Start(), f)
    ensures 4 <= |src| && InSync(src, Open(src), Start(), f)
  {
    hide Pow2, Value;
    var all := Padded(f);
    var t := Ahead(Start(), f);
    assert f.places[0] == Start().places[0] && f.places[1] == Start().places[1];
    assert f.places[1] + 2 <= f.size;
    assert WordAt(src, f.places[0]) == Value(all[16 * 0..16 * 0 + 16]);
    assert WordAt(src, f.places[1]) == Value(all[16 * 1..16 * 1 + 16]);
    assert t == all[16 * 0..16 * 0 + 16] + all[16 * 1..16 * 1 + 16];
    ValueConcat(all[16 * 0..16 * 0 + 16], all[16 * 1..16 * 1 + 16]);
    Pow16();
    PowZero();
  }

  /** What the reader sees next is what the writer writes next. */
  lemma SeesField(src: seq<Byte>, r: Reader, s: Stream, f: Stream, w: seq<bool>)
    requires InSync(src, r, s, f) && |w| <= 15 && Extends(AddField(s, w), f)
    ensures r.mask < Pow2(32) && Top(r.mask, |w|) == Value(w)
  {
    hide Pow2, Value, Top, Image, Layout, Aligned;
    ImageLayout(src, f);
    LayoutFacts(s);
    LayoutFacts(f);
    var t := Ahead(s, f);
    AlignedBelow(t);
    TopAligned(t, |w|);
    SliceAhead(s.bits, w, f.bits, Padded(f), 16 * |s.places|);
  }

  lemma SliceAhead<T>(a: seq<T>, b: seq<T>, p: seq<T>, q: seq<T>, k: nat)
    requires a + b <= p <= q && |a| + |b| <= k <= |q|
    ensures q[|a|..k][..|b|] == b
  {
    assert q[..|a| + |b|] == a + b;
    assert q[|a|..k][..|b|] == q[..|a| + |b|][|a|..];
  }

  lemma LayoutFacts(s: Stream)
    requires Layout(s)
    ensures 2 <= |s.places| && 0 <= Free(s) <= 16
  {
  }

  lemma ImageLayout(src: seq<Byte>, f: Stream)
    requires Image(src, f)
    ensures Layout(f)
  {
  }

  /** Dropping a field and refilling follows the writer. */
  lemma DropInSync(src: seq<Byte>, r: Reader, s: Stream, f: Stream, w: seq<bool>)
    requires InSync(src, r, s, f) && |w| <= 15 && Extends(AddField(s, w), f)
    ensures Refill(src, Drop(r, |w|)).Some? && InSync(src, Refill(src, Drop(r, |w|)).value, AddField(s, w), f)
  {
    hide Pow2, Value, Shifted, Image, Aligned, Layout, Low32, Joined;
    ImageLayout(src, f);
    LayoutFacts(s);
    LayoutFacts(f);
    LayoutField(s, w);
    var t, t', n := Ahead(s, f), AddField(s, w), |w|;
    ShiftAligned(t, n);
    SliceTail(Padded(f), |s.bits|, n, 16 * |s.places|);
    if n > Free(s) {
      NextWord(src, s, f, w);
      var p := Padded(f)[16 * |s.places|..16 * |s.places| + 16];
      RefillAligned(t[n..], p);
      SliceJoin(Padded(f), |s.bits| + n, 16 * |s.places|, 16 * |s.places| + 16);
    }
  }

  /** Whatever the source holds, the mask stays a 32-bit number. */
  lemma MaskBelow(src: seq<Byte>, r: Reader, n: nat)
    ensures Shifted(r.mask, n) < Pow2(32)
    ensures r.mask < Pow2(32) && Refill(src, r).Some? ==> Refill(src, r).value.mask < Pow2(32)
    ensures 4 <= |src| ==> Open(src).mask < Pow2(32)
  {
    hide Pow2, Over, Left;
    DivMod(r.mask * Pow2(n), Pow2(32));
    if r.free < 0 && r.pos + 1 < |src| {
      DivMod(Joined(Peek(src, r.pos), -r.free, r.mask), Pow2(32));
    }
    Pow16();
    Pow2Add(16, 16);
  }

  lemma SliceTail<T>(q: seq<T>, a: nat, n: nat, k: nat)
    requires a + n <= k <= |q|
    ensures q[a..k][n..] == q[a + n..k]
  {
  }

  lemma SliceJoin<T>(q: seq<T>, a: nat, k: nat, m: nat)
    requires a <= k <= m <= |q|
    ensures q[a..k] + q[k..m] == q[a..m]
  {
  }

  lemma LayoutField(s: Stream, w: seq<bool>)
    requires Layout(s) && |w| <= 15
    ensures Layout(AddField(s, w))
  {
  }

  /** The word that a spanning field reserves is the next one the reader loads. */
  lemma NextWord(src: seq<Byte>, s: Stream, f: Stream, w: seq<bool>)
    requires Image(src, f) && Layout(s) && |w| <= 15 && Free(s) < |w| && Extends(AddField(s, w), f)
    ensures |s.places| < |f.places| && s.size + 2 <= |src|
    ensures Peek(src, s.size) == Value(Padded(f)[16 * |s.places|..16 * |s.places| + 16])
  {
    hide Value;
    var i := |s.places|;
    assert AddField(s, w).places[i] == s.size;
    assert f.places[i] == s.size;
    assert f.places[i] + 2 <= f.size;
    assert WordAt(src, f.places[i]) == Value(Padded(f)[16 * i..16 * i + 16]);
  }

  /** Reading a byte follows the writer. */
  lemma ByteInSync(src: seq<Byte>, r: Reader, s: Stream, f: Stream, b: Byte)
    requires InSync(src, r, s, f) && Extends(AddByte(s, b), f)
    ensures r.pos < |src| && src[r.pos] == b && InSync(src, r.(pos := r.pos + 1), AddByte(s, b), f)
  {
    hide Pow2, Value, Aligned;
    assert s.size in AddByte(s, b).raw;
    assert Ahead(AddByte(s, b), f) == Ahead(s, f);
  }

  // ----- whole streams -----

  /** One thing written: a field of at most 15 bits, or a byte. */
  datatype Item = Field(value: nat, width: nat) | Raw(b: Byte)

  ghost predicate Writable(item: Item) {
    item.Field? ==> item.width <= 15 && item.value < Pow2(item.width)
  }

  ghost function Add(s: Stream, item: Item): Stream {
    match item
    case Field(v, n) => AddField(s, Word(v, n))
    case Raw(b) => AddByte(s, b)
  }

  ghost function Written(items: seq<Item>): Stream {
    if items == [] then Start() else Add(Written(items[..|items| - 1]), items[|items| - 1])
  }

  lemma ExtendsAdd(s: Stream, item: Item)
    requires Layout(s)
    ensures Extends(s, Add(s, item))
  {
    hide Word;
  }

  lemma ExtendsTransitive(s: Stream, t: Stream, f: Stream)
    requires Extends(s, t) && Extends(t, f)
    ensures Extends(s, f)
  {
  }

  lemma LayoutAdd(s: Stream, item: Item)
    requires Layout(s) && Writable(item)
    ensures Layout(Add(s, item))
  {
    hide Word, Pow2;
    if item.Field? {
      LayoutField(s, Word(item.value, item.width));
    }
  }

  lemma {:induction false} LayoutWritten(items: seq<Item>)
    requires forall i :: 0 <= i < |items| ==> Writable(items[i])
    ensures Layout(Written(items))
  {
    hide Writable, Layout, Add;
    if items == [] {
      StartLayout();
    } else {
      LayoutWritten(items[..|items| - 1]);
      LayoutAdd(Written(items[..|items| - 1]), items[|items| - 1]);
    }
  }

  lemma StartLayout()
    ensures Layout(Start())
  {
  }

  lemma {:induction false} WrittenExtends(items: seq<Item>, k: nat)
    requires k <= |items| && forall i :: 0 <= i < |items| ==> Writable(items[i])
    ensures Extends(Written(items[..k]), Written(items))
    decreases |items| - k
  {
    hide Writable, Layout, Add, Extends;
    if k == |items| {
      assert items[..k] == items;
      ExtendsSelf(Written(items));
    } else {
      WrittenExtends(items, k + 1);
      assert items[..k + 1][..k] == items[..k];
      LayoutWritten(items[..k]);
      ExtendsAdd(Written(items[..k]), items[k]);
      ExtendsTransitive(Written(items[..k]), Written(items[..k + 1]), Written(items));
    }
  }

  lemma ExtendsSelf(s: Stream)
    ensures Extends(s, s)
  {
  }

  method WriteAll(items: seq<Item>) returns (out: seq<Byte>)
    requires forall i :: 0 <= i < |items| ==> Writable(items[i])
    ensures Image(out, Written(items))
  {
    hide Pow2, Image, Writing, Word, Start, AddField, AddByte, Free;
    var writer := new BitWriter();
    for i := 0 to |items|
      invariant writer.Valid() && fresh(writer) && writer.s == Written(items[..i])
    {
      assert items[..i + 1][..i] == items[..i];
      assert Writable(items[i]);
      match items[i]
      case Field(v, n) => writer.Put(v, n);
      case Raw(b) => writer.PutByte(b);
    }
    assert items[..|items|] == items;
    writer.Finish();
    out := writer.out;
  }

  /** Reads fields of the given widths and, where there is none, bytes. */
  method ReadAll(src: seq<Byte>, widths: seq<Option<nat>>, ghost items: seq<Item>)
    returns (ok: bool, read: seq<Item>, pos: nat)
    requires 4 <= |src| && forall i :: 0 <= i < |widths| && widths[i].Some? ==> widths[i].value <= 15
    ensures Image(src, Written(items)) && Shapes(items, widths) ==> ok && read == items && pos == |src|
  {
    hide Pow2, Image, Shifted, InSync, Top, Word, Extends, Add;
    var r := Open(src);
    ghost var f := Written(items);
    ghost var right := Image(src, f) && Shapes(items, widths);
    if right {
      WrittenExtends(items, 0);
      assert items[..0] == [];
      OpenInSync(src, f);
    }
    read := [];
    for i := 0 to |widths|
      invariant |read| == i
      invariant right ==> read == items[..i] && InSync(src, r, Written(items[..i]), f)
    {
      if right {
        assert items[..i + 1] == items[..i] + [items[i]];
        WrittenNext(items, i);
        ItemInSync(src, r, items, i);
      }
      match widths[i]
      case Some(n) =>
        read := read + [Field(Top(r.mask, n), n)];
        var next := Refill(src, Drop(r, n));
        if next.None? {
          return false, read, r.pos;
        }
        r := next.value;
      case None =>
        if r.pos >= |src| {
          return false, read, r.pos;
        }
        read := read + [Raw(src[r.pos])];
        r := r.(pos := r.pos + 1);
    }
    if right {
      assert items[..|items|] == items;
      EndInSync(src, r, f);
    }
    return true, read, r.pos;
  }

  ghost predicate Shapes(items: seq<Item>, widths: seq<Option<nat>>) {
    && |items| == |widths|
    && forall i :: 0 <= i < |items| ==>
          Writable(items[i]) && widths[i] == if items[i].Field? then Some(items[i].width) else None
  }

  lemma WrittenNext(items: seq<Item>, i: nat)
    requires i < |items|
    ensures Written(items[..i + 1]) == Add(Written(items[..i]), items[i])
  {
    assert items[..i + 1][..i] == items[..i];
  }

  lemma EndInSync(src: seq<Byte>, r: Reader, f: Stream)
    requires InSync(src, r, f, f)
    ensures r.pos == |src|
  {
  }

  /** One item read: its value, and the reader's state after it. */
  lemma ItemInSync(src: seq<Byte>, r: Reader, items: seq<Item>, i: nat)
    requires i < |items| && forall k :: 0 <= k < |items| ==> Writable(items[k])
    requires InSync(src, r, Written(items[..i]), Written(items))
    ensures items[i].Raw? ==>
      r.pos < |src| && items[i] == Raw(src[r.pos])
          && InSync(src, r.(pos := r.pos + 1), Written(items[..i + 1]), Written(items))
    ensures items[i].Field? ==>
      && items[i].width <= 15 && items[i].value == Top(r.mask, items[i].width)
      && Refill(src, Drop(r, items[i].width)).Some?
      && InSync(src, Refill(src, Drop(r, items[i].width)).value, Written(items[..i + 1]), Written(items))
  {
    hide Pow2, Image, Shifted, InSync, Top, Word, Extends, AddField, AddByte, Refill, Drop;
    var s, f := Written(items[..i]), Written(items);
    WrittenNext(items, i);
    WrittenExtends(items, i + 1);
    assert Writable(items[i]);
    match items[i]
    case Field(v, n) =>
      ValueOfWord(v, n);
      WordSize(v, n);
      SeesField(src, r, s, f, Word(v, n));
      DropInSync(src, r, s, f, Word(v, n));
    case Raw(b) =>
      ByteInSync(src, r, s, f, b);
  }
}
