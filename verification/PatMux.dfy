/** Packing typed values into bytes by a pattern, and unpacking them by the same pattern. */
module PatMux {
  type byte = x: int | 0 <= x < 256

  datatype Kind = Char | Short | Int | Float | Double

  /** A value as its bytes in memory. */
  type Value = seq<byte>

  /** The values on the ports of the block, by kind. */
  datatype Data = Data(chars: seq<Value>, shorts: seq<Value>, ints: seq<Value>, floats: seq<Value>,
                       doubles: seq<Value>) {
    function Of(k: Kind): seq<Value> {
      match k case Char => chars case Short => shorts case Int => ints case Float => floats case Double => doubles
    }
  }

  /** So many values of the kind that the letter stands for. */
  datatype Segment = Segment(letter: char, len: nat)

  datatype Option<T> = None | Some(value: T)

  function Width(k: Kind): (w: nat)
    ensures w > 0
  {
    match k case Char => 1 case Short => 2 case Int => 4 case Float => 4 case Double => 8
  }

  /** The bytes that n values take. */
  function Extent(k: Kind, n: nat): nat {
    Width(k) * n
  }

  /** Other letters stand for nothing. */
  function KindOf(letter: char): Option<Kind> {
    match letter
    case 'f' | 'F' => Some(Float)
    case 'i' | 'I' => Some(Int)
    case 'd' | 'D' => Some(Double)
    case 's' | 'S' => Some(Short)
    case 'c' | 'C' => Some(Char)
    case _ => None
  }

  /** How many values of a kind the segments ask for. */
  function Count(segs: seq<Segment>, k: Kind): nat {
    if segs == [] then 0
    else Count(segs[..|segs| - 1], k) + if KindOf(segs[|segs| - 1].letter) == Some(k) then segs[|segs| - 1].len else 0
  }

  /** How many bytes that takes. */
  function Size(segs: seq<Segment>): nat {
    if segs == [] then 0
    else Size(segs[..|segs| - 1]) +
         match KindOf(segs[|segs| - 1].letter)
         case None => 0
         case Some(k) => Extent(k, segs[|segs| - 1].len)
  }

  /** The bytes of values in a row. */
  function Row(vs: seq<Value>): seq<byte> {
    if vs == [] then [] else Row(vs[..|vs| - 1]) + vs[|vs| - 1]
  }

  ghost predicate OfKind(vs: seq<Value>, k: Kind) {
    forall i :: 0 <= i < |vs| ==> |vs[i]| == Width(k)
  }

  lemma {:induction false} RowLength(vs: seq<Value>, k: Kind)
    requires OfKind(vs, k)
    ensures |Row(vs)| == Extent(k, |vs|)
  {
    if vs != [] {
      RowLength(vs[..|vs| - 1], k);
    }
  }

  /** The inputs, by kind, fill their segments in turn. */
  function Packed(segs: seq<Segment>, ins: Data): seq<byte>
    requires Enough(segs, ins)
  {
    if segs == [] then []
    else
      var before, last := segs[..|segs| - 1], segs[|segs| - 1];
      Packed(before, ins) +
      match KindOf(last.letter)
      case None => []
      case Some(k) => Row(ins.Of(k)[Count(before, k)..Count(before, k) + last.len])
  }

  predicate Enough(segs: seq<Segment>, ins: Data) {
    forall k :: Count(segs, k) <= |ins.Of(k)|
  }

  ghost predicate Typed(ins: Data) {
    forall k :: OfKind(ins.Of(k), k)
  }

  lemma {:induction false} PackedSize(segs: seq<Segment>, ins: Data)
    requires Enough(segs, ins) && Typed(ins)
    ensures |Packed(segs, ins)| == Size(segs)
  {
    hide Packed, Size, Count, KindOf, Row, Width, Extent, OfKind;
    if segs == [] {
      NothingToPack(ins);
    } else {
      var before, last := segs[..|segs| - 1], segs[|segs| - 1];
      PackedStep(segs, ins);
      PackedSize(before, ins);
      if k :| KindOf(last.letter) == Some(k) {
        PartIsOfKind(ins.Of(k), k, Count(before, k), last.len);
        RowLength(ins.Of(k)[Count(before, k)..Count(before, k) + last.len], k);
      }
    }
  }

  lemma NothingToPack(ins: Data)
    requires Enough([], ins)
    ensures Packed([], ins) == [] && Size([]) == 0
  {}

  /** The inputs are the same as far as the segments ask for them. */
  ghost predicate Agree(segs: seq<Segment>, a: Data, b: Data)
    requires Enough(segs, a) && Enough(segs, b)
  {
    forall k :: a.Of(k)[..Count(segs, k)] == b.Of(k)[..Count(segs, k)]
  }

  lemma AgreeBefore(segs: seq<Segment>, a: Data, b: Data)
    requires segs != [] && Enough(segs, a) && Enough(segs, b) && Agree(segs, a, b)
    ensures var before := segs[..|segs| - 1]; Enough(before, a) && Enough(before, b) && Agree(before, a, b)
  {
    var before := segs[..|segs| - 1];
    forall k
      ensures a.Of(k)[..Count(before, k)] == b.Of(k)[..Count(before, k)]
    {
      assert a.Of(k)[..Count(before, k)] == a.Of(k)[..Count(segs, k)][..Count(before, k)];
      assert b.Of(k)[..Count(before, k)] == b.Of(k)[..Count(segs, k)][..Count(before, k)];
    }
  }

  lemma AgreeOnLast(segs: seq<Segment>, a: Data, b: Data, k: Kind)
    requires segs != [] && Enough(segs, a) && Enough(segs, b) && Agree(segs, a, b)
    ensures var n, m := Count(segs[..|segs| - 1], k), Count(segs, k); a.Of(k)[n..m] == b.Of(k)[n..m]
  {
    var n, m := Count(segs[..|segs| - 1], k), Count(segs, k);
    assert a.Of(k)[n..m] == a.Of(k)[..m][n..] && b.Of(k)[n..m] == b.Of(k)[..m][n..];
  }

  /** Packing reads no more of the inputs than the segments ask for. */
  lemma {:induction false} PackedReads(segs: seq<Segment>, a: Data, b: Data)
    requires Enough(segs, a) && Enough(segs, b) && Agree(segs, a, b)
    ensures Packed(segs, a) == Packed(segs, b)
  {
    hide Agree;
    if segs != [] {
      AgreeBefore(segs, a, b);
      PackedReads(segs[..|segs| - 1], a, b);
      if k :| KindOf(segs[|segs| - 1].letter) == Some(k) {
        AgreeOnLast(segs, a, b, k);
      }
    }
  }

  lemma PackedStep(segs: seq<Segment>, ins: Data)
    requires segs != [] && Enough(segs, ins)
    ensures var before, last := segs[..|segs| - 1], segs[|segs| - 1];
            && Enough(before, ins)
            && match KindOf(last.letter)
               case None =>
                 Size(segs) == Size(before) && Packed(segs, ins) == Packed(before, ins) &&
                 forall k :: Count(segs, k) == Count(before, k)
               case Some(k) =>
                 Size(segs) == Size(before) + Extent(k, last.len) &&
                 Packed(segs, ins) ==
                   Packed(before, ins) + Row(ins.Of(k)[Count(before, k)..Count(before, k) + last.len]) &&
                 forall l :: Count(segs, l) == Count(before, l) + if l == k then last.len else 0
  {
    hide Row, KindOf, Width, Extent;
  }

  lemma Prefixes<T>(a: seq<T>, at: nat, n: nat)
    requires at + n <= |a|
    ensures a[..at] + a[at..at + n] == a[..at + n]
  {}

  /** The values that the last segment takes, and the bytes before and for it. */
  lemma LastPacked(segs: seq<Segment>, a: Data, k: Kind)
    requires segs != [] && Enough(segs, a) && Typed(a) && KindOf(segs[|segs| - 1].letter) == Some(k)
    ensures var before, n, m := segs[..|segs| - 1], Count(segs[..|segs| - 1], k), Count(segs, k);
            Enough(before, a) && Packed(segs, a) == Packed(before, a) + Row(a.Of(k)[n..m]) &&
              OfKind(a.Of(k)[n..m], k) &&
            a.Of(k)[..m] == a.Of(k)[..n] + a.Of(k)[n..m]
  {
    hide Packed, Row, Size, KindOf, Width, Extent, OfKind, Count;
    PackedStep(segs, a);
    var n := Count(segs[..|segs| - 1], k);
    Prefixes(a.Of(k), n, segs[|segs| - 1].len);
    PartIsOfKind(a.Of(k), k, n, segs[|segs| - 1].len);
  }

  lemma PartIsOfKind(vs: seq<Value>, k: Kind, at: nat, n: nat)
    requires OfKind(vs, k) && at + n <= |vs|
    ensures OfKind(vs[at..at + n], k)
  {
    hide Width;
  }

  /** Bytes are packed from one input only. */
  lemma {:induction false} PackedIsInjective(segs: seq<Segment>, a: Data, b: Data, k: Kind)
    requires Enough(segs, a) && Enough(segs, b) && Typed(a) && Typed(b) && Packed(segs, a) == Packed(segs, b)
    ensures a.Of(k)[..Count(segs, k)] == b.Of(k)[..Count(segs, k)]
    decreases |segs|, 1
  {
    if segs != [] {
      PackedStep(segs, a);
      PackedStep(segs, b);
      match KindOf(segs[|segs| - 1].letter) {
        case None => PackedIsInjective(segs[..|segs| - 1], a, b, k);
        case Some(l) => LastIsInjective(segs, a, b, k, l);
      }
    }
  }

  lemma {:induction false} LastIsInjective(segs: seq<Segment>, a: Data, b: Data, k: Kind, l: Kind)
    requires Enough(segs, a) && Enough(segs, b) && Typed(a) && Typed(b) && Packed(segs, a) == Packed(segs, b)
    requires segs != [] && KindOf(segs[|segs| - 1].letter) == Some(l)
    ensures a.Of(k)[..Count(segs, k)] == b.Of(k)[..Count(segs, k)]
    decreases |segs|, 0
  {
    hide Row, OfKind, Packed, Size, Typed, KindOf, Count;
    PackedStep(segs, a);
    LastPacked(segs, a, l);
    LastPacked(segs, b, l);
    var before := segs[..|segs| - 1];
    var n, m := Count(before, l), Count(segs, l);
    PackedSize(before, a);
    PackedSize(before, b);
    SameParts(Packed(before, a), Row(a.Of(l)[n..m]), Packed(before, b), Row(b.Of(l)[n..m]));
    PackedIsInjective(before, a, b, k);
    RowIsInjective(a.Of(l)[n..m], b.Of(l)[n..m], l);
    if k != l {
      assert Count(segs, k) == Count(before, k);
    }
  }

  lemma SameParts(a0: seq<byte>, a1: seq<byte>, b0: seq<byte>, b1: seq<byte>)
    requires a0 + a1 == b0 + b1 && |a0| == |b0|
    ensures a0 == b0 && a1 == b1
  {
    assert (a0 + a1)[..|a0|] == a0 && (b0 + b1)[..|b0|] == b0;
    assert (a0 + a1)[|a0|..] == a1 && (b0 + b1)[|b0|..] == b1;
  }

  lemma {:induction false} RowIsInjective(a: seq<Value>, b: seq<Value>, k: Kind)
    requires OfKind(a, k) && OfKind(b, k) && |a| == |b| && Row(a) == Row(b)
    ensures a == b
  {
    if a != [] {
      var n := |a| - 1;
      RowLength(a[..n], k);
      RowLength(b[..n], k);
      assert Row(a)[..|Row(a[..n])|] == Row(a[..n]) && Row(b)[..|Row(b[..n])|] == Row(b[..n]);
      assert a[n] == Row(a)[|Row(a[..n])|..] && b[n] == Row(b)[|Row(b[..n])|..];
      RowIsInjective(a[..n], b[..n], k);
      assert a == a[..n] + [a[n]] && b == b[..n] + [b[n]];
    }
  }

  lemma RowStep(vs: seq<Value>, v: Value, k: Kind)
    ensures Row(vs + [v]) == Row(vs) + v
    ensures OfKind(vs, k) && |v| == Width(k) ==> OfKind(vs + [v], k)
  {
    assert (vs + [v])[..|vs|] == vs;
  }

  /** How many values of each kind have been used. */
  datatype Counters = Counters(chars: nat, shorts: nat, ints: nat, floats: nat, doubles: nat) {
    function Of(k: Kind): nat {
      match k case Char => chars case Short => shorts case Int => ints case Float => floats case Double => doubles
    }

    function Plus(k: Kind, n: nat): (c: Counters)
      ensures forall l :: c.Of(l) == Of(l) + if l == k then n else 0
    {
      match k
      case Char => this.(chars := chars + n)
      case Short => this.(shorts := shorts + n)
      case Int => this.(ints := ints + n)
      case Float => this.(floats := floats + n)
      case Double => this.(doubles := doubles + n)
    }
  }

  // ----- multiplexing

  /** Copies the bytes of a value into the buffer. */
  method T2Bytes(bytes: array<byte>, at: nat, v: Value)
    requires at + |v| <= bytes.Length
    modifies bytes
    ensures bytes[..at + |v|] == old(bytes[..at]) + v && bytes[at + |v|..] == old(bytes[at + |v|..])
  {
    for i := 0 to |v|
      invariant bytes[..at + i] == old(bytes[..at]) + v[..i] && bytes[at + i..] == old(bytes[at + i..])
    {
      ghost var before := bytes[..at + i];
      bytes[at + i] := v[i];
      assert bytes[..at + i + 1] == before + [v[i]];
    }
  }

  method TArray2Bytes(bytes: array<byte>, at: nat, tArr: seq<Value>, k: Kind, beginIndexArr: nat, len: nat)
    requires beginIndexArr + len <= |tArr| && OfKind(tArr, k) && at + Extent(k, len) <= bytes.Length
    modifies bytes
    ensures bytes[..at + Extent(k, len)] == old(bytes[..at]) + Row(tArr[beginIndexArr..beginIndexArr + len])
  {
    hide Row, OfKind, Width, Extent;
    var pos := at;
    ghost var row := tArr[beginIndexArr..beginIndexArr + len];
    EmptyRow(k);
    for i := 0 to len
      invariant pos == at + Extent(k, i) && pos <= bytes.Length
      invariant bytes[..pos] == old(bytes[..at]) + Row(row[..i])
    {
      Fits(k, i, len);
      WidthOf(tArr, k, beginIndexArr + i);
      RowStep(row[..i], row[i], k);
      T2Bytes(bytes, pos, tArr[beginIndexArr + i]);
      assert row[..i + 1] == row[..i] + [row[i]];
      pos := pos + Width(k);
    }
    assert row[..len] == row;
  }

  lemma WidthOf(vs: seq<Value>, k: Kind, i: nat)
    requires i < |vs| && OfKind(vs, k)
    ensures |vs[i]| == Width(k)
  {}

  lemma EmptyRow(k: Kind)
    ensures Row([]) == [] && OfKind([], k) && Extent(k, 0) == 0
  {}

  lemma Fits(k: Kind, i: nat, len: nat)
    requires i < len
    ensures Extent(k, i + 1) == Extent(k, i) + Width(k) <= Extent(k, len)
  {}

  /** The counters are those of the segments so far. */
  ghost predicate CountedUpTo(cnt: Counters, segs: seq<Segment>) {
    forall k :: cnt.Of(k) == Count(segs, k)
  }

  lemma CountedUpToStep(cnt: Counters, segs: seq<Segment>, s: nat)
    requires s < |segs| && CountedUpTo(cnt, segs[..s])
    ensures match KindOf(segs[s].letter)
            case None => CountedUpTo(cnt, segs[..s + 1])
            case Some(k) => cnt.Of(k) == Count(segs[..s], k) && CountedUpTo(cnt.Plus(k, segs[s].len), segs[..s + 1])
  {
    assert segs[..s + 1][..s] == segs[..s];
  }

  /** Packs the inputs into the output bytes. */
  method Mux(segs: seq<Segment>, ins: Data, outBytes: array<byte>) returns (totalByte: nat)
    requires Enough(segs, ins) && Typed(ins) && Size(segs) <= outBytes.Length
    modifies outBytes
    ensures totalByte == Size(segs) && outBytes[..totalByte] == Packed(segs, ins)
  {
    hide Packed, Row, OfKind, KindOf, Width, Extent, Enough, Count, Size, CountedUpTo;
    var cnt := Counters(0, 0, 0, 0, 0);
    totalByte := 0;
    NothingPacked(segs, ins);
    for s := 0 to |segs|
      invariant Enough(segs[..s], ins) && totalByte == Size(segs[..s]) && totalByte <= outBytes.Length
      invariant CountedUpTo(cnt, segs[..s])
      invariant outBytes[..totalByte] == Packed(segs[..s], ins)
    {
      EnoughUpTo(segs, s, ins);
      MuxStep(segs, s, ins);
      CountedUpToStep(cnt, segs, s);
      match KindOf(segs[s].letter) {
        case None =>
        case Some(k) =>
          TArray2Bytes(outBytes, totalByte, ins.Of(k), k, cnt.Of(k), segs[s].len);
          totalByte := totalByte + Extent(k, segs[s].len);
          cnt := cnt.Plus(k, segs[s].len);
      }
    }
    assert segs[..|segs|] == segs;
  }

  lemma NothingPacked(segs: seq<Segment>, ins: Data)
    requires Enough(segs, ins)
    ensures Enough(segs[..0], ins) && Packed(segs[..0], ins) == [] && Size(segs[..0]) == 0
    ensures CountedUpTo(Counters(0, 0, 0, 0, 0), segs[..0])
  {}

  lemma EnoughUpTo(segs: seq<Segment>, s: nat, ins: Data)
    requires s < |segs| && Enough(segs, ins)
    ensures Enough(segs[..s + 1], ins)
  {
    UpTo(segs, s);
  }

  lemma MuxStep(segs: seq<Segment>, s: nat, ins: Data)
    requires s < |segs| && Enough(segs[..s + 1], ins)
    ensures Enough(segs[..s], ins) && Size(segs[..s + 1]) <= Size(segs)
    ensures match KindOf(segs[s].letter)
            case None =>
              Size(segs[..s + 1]) == Size(segs[..s]) && Packed(segs[..s + 1], ins) == Packed(segs[..s], ins) &&
              forall k :: Count(segs[..s + 1], k) == Count(segs[..s], k)
            case Some(k) =>
              Count(segs[..s], k) + segs[s].len <= |ins.Of(k)| &&
              Size(segs[..s + 1]) == Size(segs[..s]) + Extent(k, segs[s].len) &&
              Packed(segs[..s + 1], ins) ==
                Packed(segs[..s], ins) + Row(ins.Of(k)[Count(segs[..s], k)..Count(segs[..s], k) + segs[s].len]) &&
              forall l :: Count(segs[..s + 1], l) == Count(segs[..s], l) + if l == k then segs[s].len else 0
  {
    hide Packed, Row, Count, Size, KindOf, Extent, Width;
    UpTo(segs, s);
    PackedStep(segs[..s + 1], ins);
  }

  /** The first s + 1 segments, and how they fit in all of them. */
  lemma UpTo(segs: seq<Segment>, s: nat)
    requires s < |segs|
    ensures segs[..s + 1][..s] == segs[..s] && segs[..s + 1][s] == segs[s]
    ensures Size(segs[..s + 1]) <= Size(segs) && forall k :: Count(segs[..s + 1], k) <= Count(segs, k)
    decreases |segs| - s
  {
    if s + 1 < |segs| {
      UpTo(segs, s + 1);
    } else {
      assert segs[..s + 1] == segs;
    }
  }

  // ----- demultiplexing

  method Bytes2T(inBytes: seq<byte>, at: nat, k: Kind) returns (v: Value)
    requires at + Width(k) <= |inBytes|
    ensures v == inBytes[at..at + Width(k)]
  {
    v := [];
    for i := 0 to Width(k)
      invariant v == inBytes[at..at + i]
    {
      v := v + [inBytes[at + i]];
    }
  }

  /** Fills len places of the array from place beginIndexArr on with the values whose bytes are next. */
  method Bytes2TArray(inBytes: seq<byte>, at: nat, tArr: array<Value>, k: Kind, beginIndexArr: nat, len: nat)
    returns (ghost row: seq<Value>)
    requires beginIndexArr + len <= tArr.Length && at + Extent(k, len) <= |inBytes|
    modifies tArr
    ensures |row| == len && OfKind(row, k) && Row(row) == inBytes[at..at + Extent(k, len)]
    ensures tArr[..] == old(tArr[..beginIndexArr]) + row + old(tArr[beginIndexArr + len..])
  {
    hide Row, OfKind, Width, Extent;
    var pos := at;
    row := [];
    EmptyRow(k);
    for i := 0 to len
      invariant |row| == i && pos == at + Extent(k, i) && pos <= |inBytes|
      invariant tArr[..] == old(tArr[..beginIndexArr]) + row + old(tArr[beginIndexArr + i..])
      invariant OfKind(row, k) && Row(row) == inBytes[at..pos]
    {
      Fits(k, i, len);
      var v := Bytes2T(inBytes, pos, k);
      RowStep(row, v, k);
      assert inBytes[at..pos] + v == inBytes[at..pos + Width(k)];
      tArr[beginIndexArr + i] := v;
      row := row + [v];
      pos := pos + Width(k);
    }
  }

  /** The arrays behind the output ports. */
  datatype Arrays = Arrays(chars: array<Value>, shorts: array<Value>, ints: array<Value>, floats: array<Value>,
                           doubles: array<Value>) {
    function Of(k: Kind): array<Value> {
      match k case Char => chars case Short => shorts case Int => ints case Float => floats case Double => doubles
    }

    ghost predicate Separate() {
      forall k, l :: k != l ==> Of(k) != Of(l)
    }
  }

  function Appended(d: Data, k: Kind, row: seq<Value>): (d': Data)
    ensures forall l :: d'.Of(l) == if l == k then d.Of(l) + row else d.Of(l)
  {
    match k
    case Char => d.(chars := d.chars + row)
    case Short => d.(shorts := d.shorts + row)
    case Int => d.(ints := d.ints + row)
    case Float => d.(floats := d.floats + row)
    case Double => d.(doubles := d.doubles + row)
  }

  /** What has been got so far, and then what was there before. */
  ghost predicate Filled(outs: Arrays, got: Data, was: Data)
    reads outs.chars, outs.shorts, outs.ints, outs.floats, outs.doubles
  {
    Filling(Contents(outs), got, was)
  }

  ghost predicate Filling(now: Data, got: Data, was: Data) {
    forall k :: FilledBy(now.Of(k), got.Of(k), was.Of(k))
  }

  lemma FillStep(before: Data, now: Data, got: Data, was: Data, k: Kind, row: seq<Value>)
    requires Filling(before, got, was) && |got.Of(k)| + |row| <= |was.Of(k)|
    requires forall l :: l != k ==> now.Of(l) == before.Of(l)
    requires now.Of(k) == before.Of(k)[..|got.Of(k)|] + row + before.Of(k)[|got.Of(k)| + |row|..]
    ensures Filling(now, Appended(got, k, row), was)
  {
    hide Appended, FilledBy;
    assert FilledBy(before.Of(k), got.Of(k), was.Of(k));
    Inserted(got.Of(k), was.Of(k), before.Of(k), row);
    forall l
      ensures FilledBy(now.Of(l), Appended(got, k, row).Of(l), was.Of(l))
    {
      assert FilledBy(before.Of(l), got.Of(l), was.Of(l));
    }
  }

  /** One kind's values: those got so far, and then those that were there before. */
  ghost predicate FilledBy(now: seq<Value>, got: seq<Value>, was: seq<Value>) {
    |got| <= |was| && now == got + was[|got|..]
  }

  lemma Inserted(got: seq<Value>, was: seq<Value>, all: seq<Value>, row: seq<Value>)
    requires FilledBy(all, got, was) && |got| + |row| <= |was|
    ensures |all| == |was|
    ensures FilledBy(all[..|got|] + row + all[|got| + |row|..], got + row, was)
  {}

  ghost predicate Exactly(segs: seq<Segment>, got: Data) {
    forall k :: |got.Of(k)| == Count(segs, k)
  }

  /** The values got are those whose packing the bytes are. */
  ghost predicate Unpacked(segs: seq<Segment>, bytes: seq<byte>, got: Data) {
    && Exactly(segs, got)
    && Typed(got) && Enough(segs, got) && Packed(segs, got) == bytes
  }

  lemma UnpackStep(segs: seq<Segment>, s: nat, bytes: seq<byte>, got: Data, k: Kind, row: seq<Value>)
    requires s < |segs| && KindOf(segs[s].letter) == Some(k) && Unpacked(segs[..s], bytes, got)
    requires |row| == segs[s].len && OfKind(row, k)
    ensures Unpacked(segs[..s + 1], bytes + Row(row), Appended(got, k, row))
    ensures Size(segs[..s + 1]) == Size(segs[..s]) + Extent(k, segs[s].len) <= Size(segs)
  {
    hide Row, KindOf, Width, Extent, Count, Size, Packed, Typed, Exactly, Enough, Agree;
    var got' := Appended(got, k, row);
    AppendedIsTyped(got, k, row);
    AppendedFits(segs, s, got, k, row);
    hide Appended;
    PackedMore(segs, s, got, got', k, row);
  }

  lemma PackedMore(segs: seq<Segment>, s: nat, got: Data, got': Data, k: Kind, row: seq<Value>)
    requires s < |segs| && KindOf(segs[s].letter) == Some(k) && Enough(segs[..s + 1], got')
    requires Enough(segs[..s], got') && Enough(segs[..s], got) && Agree(segs[..s], got', got)
    requires Count(segs[..s], k) + segs[s].len <= |got'.Of(k)|
    requires got'.Of(k)[Count(segs[..s], k)..Count(segs[..s], k) + segs[s].len] == row
    ensures Packed(segs[..s + 1], got') == Packed(segs[..s], got) + Row(row)
    ensures Size(segs[..s + 1]) == Size(segs[..s]) + Extent(k, segs[s].len) <= Size(segs)
  {
    hide Row, KindOf, Width, Extent, Count, Size, Packed, Enough, Agree;
    MuxStep(segs, s, got');
    PackedReads(segs[..s], got', got);
  }

  lemma AppendedFits(segs: seq<Segment>, s: nat, got: Data, k: Kind, row: seq<Value>)
    requires s < |segs| && KindOf(segs[s].letter) == Some(k) && Exactly(segs[..s], got) && |row| == segs[s].len
    ensures var got' := Appended(got, k, row);
            && Exactly(segs[..s + 1], got') && Enough(segs[..s + 1], got')
            && Enough(segs[..s], got') && Enough(segs[..s], got) && Agree(segs[..s], got', got)
            && Count(segs[..s], k) + segs[s].len <= |got'.Of(k)|
            && got'.Of(k)[Count(segs[..s], k)..Count(segs[..s], k) + segs[s].len] == row
  {
    CountStep(segs, s, k);
    hide Count, KindOf;
    TakenLast(got.Of(k), row);
    assert Appended(got, k, row).Of(k) == got.Of(k) + row;
    assert |got.Of(k)| == Count(segs[..s], k);
  }

  lemma TakenLast<T>(a: seq<T>, b: seq<T>)
    ensures (a + b)[|a|..|a| + |b|] == b && (a + b)[..|a|] == a == a[..|a|]
  {}

  lemma CountStep(segs: seq<Segment>, s: nat, k: Kind)
    requires s < |segs| && KindOf(segs[s].letter) == Some(k)
    ensures forall l :: Count(segs[..s + 1], l) == Count(segs[..s], l) + if l == k then segs[s].len else 0
  {
    assert segs[..s + 1][..s] == segs[..s];
  }

  lemma AppendedIsTyped(got: Data, k: Kind, row: seq<Value>)
    requires Typed(got) && OfKind(row, k)
    ensures Typed(Appended(got, k, row))
  {
    hide Width, Extent;
    forall l
      ensures OfKind(Appended(got, k, row).Of(l), l)
    {
      assert OfKind(got.Of(l), l);
    }
  }

  lemma SkipStep(segs: seq<Segment>, s: nat, bytes: seq<byte>, got: Data)
    requires s < |segs| && KindOf(segs[s].letter) == None && Unpacked(segs[..s], bytes, got)
    ensures Unpacked(segs[..s + 1], bytes, got) && Size(segs[..s + 1]) == Size(segs[..s]) <= Size(segs)
  {
    UpTo(segs, s);
    assert forall l :: Count(segs[..s + 1], l) == Count(segs[..s], l);
    hide Row, KindOf, Width, Extent;
    PackedStep(segs[..s + 1], got);
  }

  lemma NothingUnpacked(segs: seq<Segment>, bytes: seq<byte>)
    ensures Unpacked(segs[..0], bytes[..0], NOTHING) && Size(segs[..0]) == 0
  {}

  const NOTHING := Data([], [], [], [], [])

  function Contents(outs: Arrays): (d: Data)
    reads outs.chars, outs.shorts, outs.ints, outs.floats, outs.doubles
    ensures forall k :: d.Of(k) == outs.Of(k)[..]
  {
    Data(outs.chars[..], outs.shorts[..], outs.ints[..], outs.floats[..], outs.doubles[..])
  }

  /** Where a segment's values go, and that there is room for them. */
  lemma Room(segs: seq<Segment>, s: nat, k: Kind, bytes: seq<byte>, got: Data, total: nat, length: nat)
    requires s < |segs| && KindOf(segs[s].letter) == Some(k) && Unpacked(segs[..s], bytes, got)
    requires Size(segs) <= total && Count(segs, k) <= length
    ensures |got.Of(k)| + segs[s].len <= length && Size(segs[..s]) + Extent(k, segs[s].len) <= total
  {
    UpTo(segs, s);
  }

  /** One segment, whose values go behind those of its kind that are already there. */
  method DemuxSegment(inBytes: seq<byte>, at: nat, outs: Arrays, k: Kind, cnt: nat, len: nat, ghost got: Data,
                      ghost was: Data)
    returns (ghost row: seq<Value>)
    requires outs.Separate() && Filled(outs, got, was) && cnt == |got.Of(k)|
    requires cnt + len <= outs.Of(k).Length && at + Extent(k, len) <= |inBytes|
    modifies outs.Of(k)
    ensures |row| == len && OfKind(row, k) && Row(row) == inBytes[at..at + Extent(k, len)]
    ensures Filled(outs, Appended(got, k, row), was)
  {
    hide Row, OfKind, Width, Extent, Filling;
    FilledLength(Contents(outs), got, was, k);
    ghost var before := Contents(outs);
    row := Bytes2TArray(inBytes, at, outs.Of(k), k, cnt, len);
    forall l | l != k
      ensures Contents(outs).Of(l) == before.Of(l)
    {
      assert outs.Of(l) != outs.Of(k);
    }
    FillStep(before, Contents(outs), got, was, k, row);
  }

  lemma FilledLength(now: Data, got: Data, was: Data, k: Kind)
    requires Filling(now, got, was)
    ensures |now.Of(k)| == |was.Of(k)|
  {}

  /** The counters are those of what has been got. */
  ghost predicate Counted(cnt: Counters, got: Data) {
    forall k :: cnt.Of(k) == |got.Of(k)|
  }

  ghost predicate Grown(got: Data, got': Data, k: Kind, n: nat) {
    forall l :: |got'.Of(l)| == |got.Of(l)| + if l == k then n else 0
  }

  lemma CountedOf(cnt: Counters, got: Data, k: Kind)
    requires Counted(cnt, got)
    ensures cnt.Of(k) == |got.Of(k)|
  {}

  lemma CountedStep(cnt: Counters, got: Data, got': Data, k: Kind, n: nat)
    requires Counted(cnt, got) && Grown(got, got', k, n)
    ensures Counted(cnt.Plus(k, n), got')
  {}

  /** The case of the switch for segment s. */
  method DemuxCase(segs: seq<Segment>, s: nat, inBytes: seq<byte>, at: nat, outs: Arrays, k: Kind, cnt: nat,
                   ghost got: Data, ghost was: Data)
    returns (ghost got': Data)
    requires s < |segs| && at <= |inBytes| && KindOf(segs[s].letter) == Some(k)
    requires Unpacked(segs[..s], inBytes[..at], got)
    requires at == Size(segs[..s]) && Size(segs) <= |inBytes| && Count(segs, k) <= outs.Of(k).Length
    requires outs.Separate() && Filled(outs, got, was) && cnt == |got.Of(k)|
    modifies outs.Of(k)
    ensures at + Extent(k, segs[s].len) <= |inBytes| && Size(segs[..s + 1]) == at + Extent(k, segs[s].len)
    ensures Unpacked(segs[..s + 1], inBytes[..at + Extent(k, segs[s].len)], got') && Filled(outs, got', was)
    ensures Grown(got, got', k, segs[s].len)
  {
    hide Unpacked, Filled, KindOf, Count, Size, Width, Extent, Row, OfKind;
    Room(segs, s, k, inBytes[..at], got, |inBytes|, outs.Of(k).Length);
    ghost var row := DemuxSegment(inBytes, at, outs, k, cnt, segs[s].len, got, was);
    UnpackStep(segs, s, inBytes[..at], got, k, row);
    Prefixes(inBytes, at, Extent(k, segs[s].len));
    got' := Appended(got, k, row);
  }

  lemma AtStart(outs: Arrays)
    ensures Filled(outs, NOTHING, Contents(outs)) && Counted(Counters(0, 0, 0, 0, 0), NOTHING)
  {}

  /** Unpacks the bytes into the output arrays, from their first places on. */
  method Demux(segs: seq<Segment>, inBytes: seq<byte>, outs: Arrays, ghost was: Data)
    returns (totalByte: nat, ghost got: Data)
    requires outs.Separate() && Size(segs) <= |inBytes| && forall k :: Count(segs, k) <= outs.Of(k).Length
    requires was == Contents(outs)
    modifies outs.chars, outs.shorts, outs.ints, outs.floats, outs.doubles
    ensures totalByte == Size(segs) && Unpacked(segs, inBytes[..totalByte], got)
    ensures Filled(outs, got, was)
  {
    hide Contents, Counted, Grown, Unpacked, Filled, KindOf, Count, Size, Width, Extent, Row, OfKind;
    var cnt := Counters(0, 0, 0, 0, 0);
    totalByte, got := 0, NOTHING;
    NothingUnpacked(segs, inBytes);
    AtStart(outs);
    for s := 0 to |segs|
      invariant totalByte == Size(segs[..s]) && totalByte <= |inBytes| && Unpacked(segs[..s], inBytes[..totalByte], got)
      invariant Filled(outs, got, was) && Counted(cnt, got)
    {
      match KindOf(segs[s].letter) {
        case None =>
          SkipStep(segs, s, inBytes[..totalByte], got);
        case Some(k) =>
          CountedOf(cnt, got, k);
          ghost var before := got;
          got := DemuxCase(segs, s, inBytes, totalByte, outs, k, cnt.Of(k), got, was);
          CountedStep(cnt, before, got, k, segs[s].len);
          totalByte := totalByte + Extent(k, segs[s].len);
          cnt := cnt.Plus(k, segs[s].len);
      }
    }
    assert segs[..|segs|] == segs;
  }

  /** What one block packs, another with the same pattern unpacks: every kind's values, in order. */
  method Transfer(segs: seq<Segment>, ins: Data, wire: array<byte>, outs: Arrays)
    requires Enough(segs, ins) && Typed(ins) && Size(segs) <= wire.Length
    requires outs.Separate() && forall k :: Count(segs, k) <= outs.Of(k).Length
    modifies wire, outs.chars, outs.shorts, outs.ints, outs.floats, outs.doubles
    ensures forall k :: outs.Of(k)[..Count(segs, k)] == ins.Of(k)[..Count(segs, k)]
  {
    hide Packed, Size, KindOf;
    var sent := Mux(segs, ins, wire);
    var received;
    ghost var got;
    received, got := Demux(segs, wire[..], outs, Contents(outs));
    assert wire[..][..received] == wire[..sent];
    forall k
      ensures outs.Of(k)[..Count(segs, k)] == ins.Of(k)[..Count(segs, k)]
    {
      PackedIsInjective(segs, ins, got, k);
    }
  }

  // ----- patterns in print

  predicate IsDigit(c: char) {
    '0' <= c <= '9'
  }

  function DigitValue(c: char): nat
    requires IsDigit(c)
  {
    c as int - '0' as int
  }

  function Decimal(n: nat): (s: string)
    ensures s != [] && forall i :: 0 <= i < |s| ==> IsDigit(s[i])
  {
    var last := ('0' as int + n % 10) as char;
    if n < 10 then [last] else Decimal(n / 10) + [last]
  }

  function Printed(segs: seq<Segment>): string {
    if segs == [] then [] else [segs[0].letter] + Decimal(segs[0].len) + Printed(segs[1..])
  }

  predicate Lettered(segs: seq<Segment>) {
    forall k :: 0 <= k < |segs| ==> !IsDigit(segs[k].letter) && segs[k].letter != '\0'
  }

  /** The number that digits denote. */
  function Number(s: string): nat
    requires forall i :: 0 <= i < |s| ==> IsDigit(s[i])
  {
    if s == [] then 0 else 10 * Number(s[..|s| - 1]) + DigitValue(s[|s| - 1])
  }

  lemma {:induction false} NumberOfDecimal(n: nat)
    ensures Number(Decimal(n)) == n
  {
    var s := Decimal(n);
    if n >= 10 {
      assert s[..|s| - 1] == Decimal(n / 10);
      NumberOfDecimal(n / 10);
    }
  }

  /** Reads a number and moves on behind it. */
  method Strtol(str: string, p: nat) returns (val: nat, p': nat)
    requires p <= |str|
    ensures p <= p' <= |str| && (p' < |str| ==> !IsDigit(str[p'])) && forall i :: p <= i < p' ==> IsDigit(str[i])
    ensures val == Number(str[p..p'])
  {
    val, p' := 0, p;
    while p' < |str| && IsDigit(str[p'])
      invariant p <= p' <= |str| && (forall i :: p <= i < p' ==> IsDigit(str[i])) && val == Number(str[p..p'])
    {
      assert str[p..p' + 1][..p' - p] == str[p..p'];
      val := 10 * val + DigitValue(str[p']);
      p' := p' + 1;
    }
  }

  /** How many digits a text starts with. */
  function Digits(str: string): (n: nat)
    ensures n <= |str| && (forall i :: 0 <= i < n ==> IsDigit(str[i])) && (n < |str| ==> !IsDigit(str[n]))
  {
    if str == [] || !IsDigit(str[0]) then 0 else 1 + Digits(str[1..])
  }

  /** The segments that a text stands for: one for each number, with the last letter before it. The
      letter of a number at the very beginning is given. */
  function Read(str: string, letter: char): seq<Segment>
    decreases |str|
  {
    if str == [] then []
    else if IsDigit(str[0]) then [Segment(letter, Number(str[..Digits(str)]))] + Read(str[Digits(str)..], '\0')
    else Read(str[1..], str[0])
  }

  /** A printed pattern stands for its own segments. */
  lemma {:induction false} ReadOfPrinted(segs: seq<Segment>, letter: char)
    requires Lettered(segs)
    ensures Read(Printed(segs), letter) == segs
  {
    hide Decimal, Number, Read, IsDigit;
    if segs == [] {
      NothingToRead(letter);
    } else {
      var str, d, rest := Printed(segs), Decimal(segs[0].len), Printed(segs[1..]);
      assert str == [segs[0].letter] + (d + rest);
      PrintedStart(segs[1..]);
      ReadStep(str, 0, letter, 1, segs[0].letter);
      assert str[0..] == str && str[1..] == d + rest && str[1..1 + |d|] == d && str[1 + |d|..] == rest;
      assert forall i :: 1 <= i < 1 + |d| ==> str[i] == d[i - 1];
      ReadStep(str, 1, segs[0].letter, 1 + |d|, '\0');
      NumberOfDecimal(segs[0].len);
      ReadOfPrinted(segs[1..], '\0');
    }
  }

  lemma PrintedStart(segs: seq<Segment>)
    requires Lettered(segs)
    ensures Printed(segs) != [] ==> !IsDigit(Printed(segs)[0])
  {}

  lemma {:induction false} DigitsEnd(str: string, n: nat)
    requires n <= |str| && (forall i :: 0 <= i < n ==> IsDigit(str[i])) && (n < |str| ==> !IsDigit(str[n]))
    ensures Digits(str) == n
  {
    if n > 0 {
      DigitsEnd(str[1..], n - 1);
    }
  }

  /** The first number or letter of a text. */
  lemma ReadStep(str: string, p: nat, letter: char, p': nat, next: char)
    requires p < p' <= |str|
    requires if IsDigit(str[p]) then (forall i :: p <= i < p' ==> IsDigit(str[i])) && (p' < |str| ==> !IsDigit(str[p']))
             else p' == p + 1 && next == str[p]
    ensures IsDigit(str[p]) ==> Read(str[p..], letter) == [Segment(letter, Number(str[p..p']))] + Read(str[p'..], next)
    ensures !IsDigit(str[p]) ==> Read(str[p..], letter) == Read(str[p'..], next)
  {
    hide Number, Read, IsDigit, Digits;
    var rest, n := str[p..], p' - p;
    assert rest[0] == str[p] && rest[n..] == str[p'..] && rest[..n] == str[p..p'];
    if IsDigit(str[p]) {
      forall i | 0 <= i < n
        ensures IsDigit(rest[i])
      {
        assert rest[i] == str[p + i];
      }
      assert n < |rest| ==> rest[n] == str[p'];
      DigitsEnd(rest, n);
      NumberFirst(rest, letter, next);
    } else {
      LetterFirst(rest, letter);
    }
  }

  lemma NumberFirst(str: string, letter: char, next: char)
    requires str != [] && IsDigit(str[0])
    ensures var n := Digits(str);
            Read(str, letter) == [Segment(letter, Number(str[..n]))] + Read(str[n..], next)
  {
    hide Number, IsDigit, Digits;
    var n := Digits(str);
    assert n < |str| ==> !IsDigit(str[n]);
    SameRead(str[n..], next, '\0');
  }

  /** The letter given matters only to a text that starts with a digit. */
  lemma SameRead(str: string, a: char, b: char)
    requires str == [] || !IsDigit(str[0])
    ensures Read(str, a) == Read(str, b)
  {}

  lemma LetterFirst(str: string, letter: char)
    requires str != [] && !IsDigit(str[0])
    ensures Read(str, letter) == Read(str[1..], str[0])
  {}

  /** The segments found so far. */
  ghost function Found(typeArr: seq<char>, typeLen: seq<nat>, i: nat): (found: seq<Segment>)
    requires i <= |typeArr| && i <= |typeLen|
    ensures |found| == i && forall k :: 0 <= k < i ==> found[k] == Segment(typeArr[k], typeLen[k])
  {
    seq(i, k requires 0 <= k < i => Segment(typeArr[k], typeLen[k]))
  }

  /** Reads a pattern, the text before the terminating NUL. A letter is kept until a number follows; the
      first number of a text without a letter before it gets the letter that was there before. */
  method Str2ByteInfo(str: string, typeArr: array<char>, typeLen: array<nat>) returns (i: nat)
    requires typeArr.Length > 0
    requires var n := |Read(str, typeArr[0])|; n < typeArr.Length && n <= typeLen.Length
    modifies typeArr, typeLen
    ensures i == |old(Read(str, typeArr[0]))| < typeArr.Length && i <= typeLen.Length && typeArr[i] == '\0'
    ensures Found(typeArr[..], typeLen[..], i) == old(Read(str, typeArr[0]))
    ensures typeArr[i + 1..] == old(typeArr[i + 1..]) && typeLen[i..] == old(typeLen[i..])
  {
    hide Read, Number, IsDigit, Found, Reading;
    ghost var segs := Read(str, typeArr[0]);
    i := 0;
    var p := 0;
    BeforeReading(str, typeArr[..], typeLen[..], segs);
    while p < |str|
      invariant p <= |str| && i < typeArr.Length && i <= typeLen.Length
      invariant Reading(str, p, typeArr[..], typeLen[..], i, segs)
      invariant typeArr[i + 1..] == old(typeArr[i + 1..]) && typeLen[i..] == old(typeLen[i..])
      decreases |str| - p
    {
      ghost var letters, lens := typeArr[..], typeLen[..];
      if IsDigit(str[p]) {
        var val, p' := Strtol(str, p);
        ReadNumber(str, p, p', letters, lens, i, val, segs);
        typeLen[i] := val;
        assert typeLen[..] == lens[i := val];
        i := i + 1;
        p := p';
      } else {
        ReadLetter(str, p, letters, lens, i, segs);
        typeArr[i] := str[p];
        assert typeArr[..] == letters[i := str[p]];
        p := p + 1;
      }
    }
    AllRead(str, p, typeArr[..], typeLen[..], i, segs);
    ghost var letters := typeArr[..];
    typeArr[i] := '\0';
    assert typeArr[..] == letters[i := '\0'];
  }

  /** What has been found up to place p, and what the rest of the text stands for. */
  ghost predicate Reading(str: string, p: nat, letters: seq<char>, lens: seq<nat>, i: nat, segs: seq<Segment>) {
    && p <= |str| && i <= |segs| < |letters| && |segs| <= |lens|
    && segs == Found(letters, lens, i) + Read(str[p..], letters[i])
  }

  lemma BeforeReading(str: string, letters: seq<char>, lens: seq<nat>, segs: seq<Segment>)
    requires letters != [] && segs == Read(str, letters[0]) && |segs| < |letters| && |segs| <= |lens|
    ensures Reading(str, 0, letters, lens, 0, segs)
  {
    hide Read;
    assert str[0..] == str;
  }

  lemma ReadNumber(str: string, p: nat, p': nat, letters: seq<char>, lens: seq<nat>, i: nat, val: nat,
                   segs: seq<Segment>)
    requires Reading(str, p, letters, lens, i, segs) && p < p' <= |str| && IsDigit(str[p])
    requires (forall k :: p <= k < p' ==> IsDigit(str[k])) && (p' < |str| ==> !IsDigit(str[p']))
    requires val == Number(str[p..p'])
    ensures i < |segs| && Reading(str, p', letters, lens[i := val], i + 1, segs)
  {
    hide Read, Number, IsDigit, Found;
    ReadStep(str, p, letters[i], p', if i + 1 < |letters| then letters[i + 1] else '\0');
    FoundNumber(letters, lens, i, val);
    AppendedInTurn(Found(letters, lens, i), Segment(letters[i], val), Read(str[p'..], letters[i + 1]));
  }

  lemma AppendedInTurn<T>(a: seq<T>, x: T, b: seq<T>)
    ensures a + ([x] + b) == a + [x] + b
  {}

  lemma ReadLetter(str: string, p: nat, letters: seq<char>, lens: seq<nat>, i: nat, segs: seq<Segment>)
    requires Reading(str, p, letters, lens, i, segs) && p < |str| && !IsDigit(str[p])
    ensures Reading(str, p + 1, letters[i := str[p]], lens, i, segs)
  {
    hide Read, IsDigit, Found;
    ReadStep(str, p, letters[i], p + 1, str[p]);
    FoundLetter(letters, lens, i, str[p]);
  }

  lemma AllRead(str: string, p: nat, letters: seq<char>, lens: seq<nat>, i: nat, segs: seq<Segment>)
    requires Reading(str, p, letters, lens, i, segs) && p == |str|
    ensures i == |segs| && Found(letters[i := '\0'], lens, i) == segs
  {
    hide Found;
    assert str[p..] == [];
    FoundLetter(letters, lens, i, '\0');
  }

  lemma FoundNumber(letters: seq<char>, lens: seq<nat>, i: nat, val: nat)
    requires i < |letters| && i < |lens|
    ensures Found(letters, lens[i := val], i + 1) == Found(letters, lens, i) + [Segment(letters[i], val)]
  {}

  lemma FoundLetter(letters: seq<char>, lens: seq<nat>, i: nat, letter: char)
    requires i < |letters| && i <= |lens|
    ensures Found(letters[i := letter], lens, i) == Found(letters, lens, i)
  {}

  lemma NothingToRead(letter: char)
    ensures Read([], letter) == []
  {}
}
