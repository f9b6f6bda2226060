/** The IDX file format MNIST ships in: a big-endian `u32` magic word whose
    low byte is the number of dimensions and whose upper bytes name the
    element type, one big-endian `u32` per dimension, then the elements,
    each stored big-endian in the element type's width. The file is given
    as its bytes; every `unwrap`/`assert_eq!` panic of the decoder is an
    `Err` value naming the check that failed. Floating-point elements are
    kept as their raw bit patterns. */
module Idx {
  import opened Base

  type Byte = b: int | 0 <= b < 256

  // ---------------------------------------------------------------------
  // Big-endian integers

  function Pow256(n: nat): (r: nat)
    ensures r >= 1
  {
    if n == 0 then 1 else 256 * Pow256(n - 1)
  }

  /** The unsigned integer whose big-endian bytes are `bs`. */
  function BeValue(bs: seq<Byte>): nat
  {
    if bs == [] then 0 else BeValue(bs[..|bs| - 1]) * 256 + bs[|bs| - 1]
  }

  /** The `n` big-endian bytes of `v` modulo `256^n` (Rust's
      `to_be_bytes` after a truncating cast). */
  function BeBytes(v: nat, n: nat): (r: seq<Byte>)
    ensures |r| == n
  {
    if n == 0 then [] else BeBytes(v / 256, n - 1) + [v % 256]
  }

  /** `n` bytes hold exactly the values below `256^n`. */
  lemma {:induction false} BeValueBound(bs: seq<Byte>)
    ensures BeValue(bs) < Pow256(|bs|)
  {
    if bs != [] {
      BeValueBound(bs[..|bs| - 1]);
    }
  }

  /** Encoding a value that fits and decoding it gives the value back. */
  lemma {:induction false} BeValueOfBytes(v: nat, n: nat)
    requires v < Pow256(n)
    ensures BeValue(BeBytes(v, n)) == v
  {
    if n > 0 {
      BeValueOfBytes(v / 256, n - 1);
      var bs := BeBytes(v, n);
      assert bs[..|bs| - 1] == BeBytes(v / 256, n - 1);
    }
  }

  /** Decoding bytes and encoding the value at the same width gives the
      bytes back. */
  lemma {:induction false} BeBytesOfValue(bs: seq<Byte>)
    ensures BeBytes(BeValue(bs), |bs|) == bs
  {
    if bs != [] {
      var init := bs[..|bs| - 1];
      BeBytesOfValue(init);
      var v := BeValue(bs);
      assert v / 256 == BeValue(init) && v % 256 == bs[|bs| - 1];
      assert bs == init + [bs[|bs| - 1]];
    }
  }

  /** `read_int`: four bytes, big-endian; a short read panics. */
  function ReadInt(bs: seq<Byte>): (r: Result<(nat, seq<Byte>)>)
    ensures r.Ok? <==> |bs| >= 4
    ensures r.Err? ==> r.error == Truncated
    ensures r.Ok? ==> r.value.0 < Pow256(4) && BeBytes(r.value.0, 4) + r.value.1 == bs
  {
    if |bs| < 4 then Err(Truncated)
    else
      BeValueBound(bs[..4]);
      BeBytesOfValue(bs[..4]);
      assert bs[..4] + bs[4..] == bs;
      Ok((BeValue(bs[..4]), bs[4..]))
  }

  // ---------------------------------------------------------------------
  // Element types

  /** What a decode can fail on, one constructor per panic of `read_sn3`,
      in the order the code reaches them. */
  datatype Error =
    | Truncated                  // `read_exact` on a header word
    | DimensionMismatch(nd: nat) // `magic % 256` is not the requested rank
    | TypeMismatch(ty: nat)      // `magic / 256` is not the element code
    | PartialElement             // a trailing chunk shorter than an element
    | ShapeMismatch              // `into_shape`: count != product of shape

  datatype Result<T> = Ok(value: T) | Err(error: Error)

  /** The implementors of `MagicType`. */
  datatype ElemType = U8 | I8 | I16 | I32 | F32 | F64

  /** `MagicType::MAGIC`. */
  function Magic(t: ElemType): nat
  {
    match t
    case U8 => 8
    case I8 => 9
    case I16 => 11
    case I32 => 12
    case F32 => 13
    case F64 => 14
  }

  /** `MagicType::BYTES`. */
  function Width(t: ElemType): nat
  {
    match t
    case U8 => 1
    case I8 => 1
    case I16 => 2
    case I32 => 4
    case F32 => 4
    case F64 => 8
  }

  predicate Signed(t: ElemType)
  {
    t == I8 || t == I16 || t == I32
  }

  /** The table is a bijection between element types and magic codes, every
      width is at least one byte, and the codes fit above the rank byte. */
  lemma MagicTable(t: ElemType, u: ElemType)
    ensures Magic(t) == Magic(u) <==> t == u
    ensures 1 <= Width(t) <= 8 && 8 <= Magic(t) <= 14
  {
  }

  /** The values an element of type `t` can hold (floats by their bits). */
  predicate InRange(t: ElemType, v: int)
  {
    var p := Pow256(Width(t));
    if Signed(t) then -(p / 2) <= v < p / 2 else 0 <= v < p
  }

  /** `from_be_bytes` on one chunk of `Width(t)` bytes; the signed types
      read two's complement. */
  function DecodeElem(t: ElemType, chunk: seq<Byte>): int
    requires |chunk| == Width(t)
  {
    var u := BeValue(chunk);
    var p := Pow256(Width(t));
    if Signed(t) && u >= p / 2 then u - p else u
  }

  /** `to_be_bytes`: the inverse of `DecodeElem`. */
  function EncodeElem(t: ElemType, v: int): (r: seq<Byte>)
    requires InRange(t, v)
    ensures |r| == Width(t)
  {
    var p := Pow256(Width(t));
    BeBytes(if v < 0 then v + p else v, Width(t))
  }

  lemma PowEven(n: nat)
    requires n > 0
    ensures Pow256(n) == 2 * (Pow256(n) / 2)
  {
  }

  /** Encoding then decoding an in-range element gives it back. */
  lemma DecodeEncodeElem(t: ElemType, v: int)
    requires InRange(t, v)
    ensures DecodeElem(t, EncodeElem(t, v)) == v
  {
    var p := Pow256(Width(t));
    PowEven(Width(t));
    BeValueOfBytes(if v < 0 then v + p else v, Width(t));
  }

  /** Decoding then encoding a chunk gives it back, and the element decoded
      is in range. */
  lemma EncodeDecodeElem(t: ElemType, chunk: seq<Byte>)
    requires |chunk| == Width(t)
    ensures InRange(t, DecodeElem(t, chunk))
    ensures EncodeElem(t, DecodeElem(t, chunk)) == chunk
  {
    DecodeElemInRange(t, chunk);
    var p := Pow256(Width(t));
    var u := BeValue(chunk);
    var v := DecodeElem(t, chunk);
    assert (if v < 0 then v + p else v) == u;
    BeBytesOfValue(chunk);
  }

  lemma DecodeElemInRange(t: ElemType, chunk: seq<Byte>)
    requires |chunk| == Width(t)
    ensures InRange(t, DecodeElem(t, chunk))
    ensures 0 <= BeValue(chunk) < Pow256(Width(t))
  {
    PowEven(Width(t));
    BeValueBound(chunk);
  }

  // ---------------------------------------------------------------------
  // The decoder

  /** The shape: `n` header words in order. */
  function ReadShape(bs: seq<Byte>, n: nat): Result<(seq<nat>, seq<Byte>)>
  {
    if n == 0 then Ok(([], bs))
    else
      var w := ReadInt(bs);
      if w.Err? then Err(w.error)
      else
        var more := ReadShape(w.value.1, n - 1);
        if more.Err? then more
        else Ok(([w.value.0] + more.value.0, more.value.1))
  }

  /** `chunks(T::BYTES).map(T::from_magic).collect()`: the payload in
      element-sized chunks; a short last chunk panics. */
  function DecodeAll(t: ElemType, payload: seq<Byte>): Result<seq<int>>
    decreases |payload|
  {
    MagicTable(t, t);
    if payload == [] then Ok([])
    else if |payload| < Width(t) then Err(PartialElement)
    else
      var more := DecodeAll(t, payload[Width(t)..]);
      if more.Err? then more
      else Ok([DecodeElem(t, payload[..Width(t)])] + more.value)
  }

  /** The number of elements an array of this shape holds. */
  function Product(shape: seq<nat>): nat
  {
    if shape == [] then 1 else shape[0] * Product(shape[1..])
  }

  /** A decoded file: its shape and its elements in row-major order. */
  datatype Tensor = Tensor(shape: seq<nat>, elems: seq<int>)

  /** `read_sn3::<T, N>` over the file's bytes. */
  function Parse(t: ElemType, n: nat, bs: seq<Byte>): Result<Tensor>
  {
    var m := ReadInt(bs);
    if m.Err? then Err(m.error)
    else
      var (magic, rest) := m.value;
      if magic % 256 != n then Err(DimensionMismatch(magic % 256))
      else if magic / 256 != Magic(t) then Err(TypeMismatch(magic / 256))
      else
        var s := ReadShape(rest, n);
        if s.Err? then Err(s.error)
        else
          var (shape, payload) := s.value;
          var e := DecodeAll(t, payload);
          if e.Err? then Err(e.error)
          else if |e.value| != Product(shape) then Err(ShapeMismatch)
          else Ok(Tensor(shape, e.value))
  }

  /** `read_label_file`: a one-dimensional `u8` file. */
  function ReadLabelFile(bs: seq<Byte>): Result<Tensor>
  {
    Parse(U8, 1, bs)
  }

  /** `read_image_file`: a three-dimensional `u8` file. */
  function ReadImageFile(bs: seq<Byte>): Result<Tensor>
  {
    Parse(U8, 3, bs)
  }

  // ---------------------------------------------------------------------
  // The encoder, the decoder's partner

  function EncodeWords(words: seq<nat>): (r: seq<Byte>)
    ensures |r| == 4 * |words|
  {
    if words == [] then [] else BeBytes(words[0], 4) + EncodeWords(words[1..])
  }

  function EncodeAll(t: ElemType, elems: seq<int>): (r: seq<Byte>)
    requires forall k | 0 <= k < |elems| :: InRange(t, elems[k])
    ensures |r| == Width(t) * |elems|
  {
    if elems == [] then [] else EncodeElem(t, elems[0]) + EncodeAll(t, elems[1..])
  }

  /** The bytes of an IDX file holding `x`. */
  function Encode(t: ElemType, x: Tensor): seq<Byte>
    requires forall k | 0 <= k < |x.elems| :: InRange(t, x.elems[k])
  {
    BeBytes(Magic(t) * 256 + |x.shape|, 4) + EncodeWords(x.shape) + EncodeAll(t, x.elems)
  }

  /** The tensors an IDX file of element type `t` can hold. */
  predicate Encodable(t: ElemType, x: Tensor)
  {
    && |x.shape| < 256
    && (forall k | 0 <= k < |x.shape| :: x.shape[k] < Pow256(4))
    && (forall k | 0 <= k < |x.elems| :: InRange(t, x.elems[k]))
    && |x.elems| == Product(x.shape)
  }

  /** `ReadShape` succeeds exactly when `4n` bytes are there, and then the
      words it returns re-encode to those bytes. */
  lemma {:induction false} ReadShapeSpec(bs: seq<Byte>, n: nat)
    ensures ReadShape(bs, n).Ok? <==> |bs| >= 4 * n
    ensures ReadShape(bs, n).Err? ==> ReadShape(bs, n).error == Truncated
    ensures ReadShape(bs, n).Ok? ==>
      var (words, rest) := ReadShape(bs, n).value;
      && |words| == n
      && (forall k | 0 <= k < n :: words[k] < Pow256(4))
      && EncodeWords(words) + rest == bs
  {
    if n > 0 && |bs| >= 4 {
      var w := ReadInt(bs);
      ReadShapeSpec(w.value.1, n - 1);
      var more := ReadShape(w.value.1, n - 1);
      if more.Ok? {
        var words := [w.value.0] + more.value.0;
        assert words[1..] == more.value.0;
        assert EncodeWords(words) + more.value.1 == BeBytes(w.value.0, 4) + (EncodeWords(more.value.0) + more.value.1);
      }
    }
  }

  /** `read_int` on an encoded word gives the word and the bytes after it. */
  lemma ReadIntOfBytes(v: nat, rest: seq<Byte>)
    requires v < Pow256(4)
    ensures ReadInt(BeBytes(v, 4) + rest) == Ok((v, rest))
  {
    var bs := BeBytes(v, 4) + rest;
    BeValueOfBytes(v, 4);
    assert bs[..4] == BeBytes(v, 4);
    assert bs[4..] == rest;
  }

  /** Reading the words back from their encoding gives them back. */
  lemma {:induction false} ReadShapeOfWords(words: seq<nat>, rest: seq<Byte>)
    requires forall k | 0 <= k < |words| :: words[k] < Pow256(4)
    ensures ReadShape(EncodeWords(words) + rest, |words|) == Ok((words, rest))
  {
    if words != [] {
      var tail := words[1..];
      var after := EncodeWords(tail) + rest;
      ReadShapeOfWords(tail, rest);
      ReadIntOfBytes(words[0], after);
      EncodeWordsCons(words, rest);
      ReadShapeStep(BeBytes(words[0], 4) + after, |words|, words[0], after, tail, rest);
      assert [words[0]] + tail == words;
    } else {
      assert EncodeWords(words) + rest == rest;
    }
  }

  lemma EncodeWordsCons(words: seq<nat>, rest: seq<Byte>)
    requires words != []
    ensures EncodeWords(words) + rest == BeBytes(words[0], 4) + (EncodeWords(words[1..]) + rest)
  {
  }

  /** One word read, then the other `n - 1`. */
  lemma ReadShapeStep(bs: seq<Byte>, n: nat, w: nat, after: seq<Byte>, tail: seq<nat>, rest: seq<Byte>)
    requires n > 0
    requires ReadInt(bs) == Ok((w, after))
    requires ReadShape(after, n - 1) == Ok((tail, rest))
    ensures ReadShape(bs, n) == Ok(([w] + tail, rest))
  {
  }

  /** The payload decodes exactly when its length is a multiple of the
      element width, and the elements then re-encode to the payload. */
  lemma DecodeAllSpec(t: ElemType, payload: seq<Byte>)
    ensures DecodeAll(t, payload).Ok? <==> |payload| % Width(t) == 0
    ensures DecodeAll(t, payload).Err? ==> DecodeAll(t, payload).error == PartialElement
    ensures DecodeAll(t, payload).Ok? ==>
      var elems := DecodeAll(t, payload).value;
      && (forall k | 0 <= k < |elems| :: InRange(t, elems[k]))
      && EncodeAll(t, elems) == payload
      && |elems| == |payload| / Width(t)
  {
    DecodeAllFails(t, payload);
    if DecodeAll(t, payload).Ok? {
      DecodeAllInverse(t, payload);
      var elems := DecodeAll(t, payload).value;
      MagicTable(t, t);
      assert |payload| == |elems| * Width(t) by {
        assert |EncodeAll(t, elems)| == Width(t) * |elems|;
      }
      DivUnique(|payload|, Width(t), |elems|, 0);
    }
  }

  /** The decode fails, on a partial element, exactly when the width does
      not divide the length. */
  lemma {:induction false} DecodeAllFails(t: ElemType, payload: seq<Byte>)
    ensures DecodeAll(t, payload).Ok? <==> |payload| % Width(t) == 0
    ensures DecodeAll(t, payload).Err? ==> DecodeAll(t, payload).error == PartialElement
    decreases |payload|
  {
    var w := Width(t);
    MagicTable(t, t);
    if payload == [] {
    } else if |payload| < w {
      DivUnique(|payload|, w, 0, |payload|);
    } else {
      DecodeAllFails(t, payload[w..]);
      ModStep(|payload|, w);
    }
  }

  /** Every decoded element is in range. */
  lemma {:induction false} DecodeAllInRange(t: ElemType, payload: seq<Byte>)
    requires DecodeAll(t, payload).Ok?
    ensures var elems := DecodeAll(t, payload).value;
      forall k | 0 <= k < |elems| :: InRange(t, elems[k])
    decreases |payload|
  {
    var w := Width(t);
    MagicTable(t, t);
    if payload != [] {
      var head, tail := payload[..w], payload[w..];
      DecodeAllInRange(t, tail);
      var more := DecodeAll(t, tail).value;
      EncodeDecodeElem(t, head);
      var elems := [DecodeElem(t, head)] + more;
      assert DecodeAll(t, payload).value == elems;
      forall k | 0 <= k < |elems|
        ensures InRange(t, elems[k])
      {
        if k > 0 {
          assert elems[k] == more[k - 1];
        }
      }
    }
  }

  /** The decoded elements re-encode to the payload. */
  lemma {:induction false} DecodeAllInverse(t: ElemType, payload: seq<Byte>)
    requires DecodeAll(t, payload).Ok?
    ensures var elems := DecodeAll(t, payload).value;
      && (forall k | 0 <= k < |elems| :: InRange(t, elems[k]))
      && EncodeAll(t, elems) == payload
    decreases |payload|
  {
    DecodeAllInRange(t, payload);
    if payload != [] {
      DecodeAllOkStep(t, payload);
      DecodeAllInverse(t, payload[Width(t)..]);
      DecodeAllInverseStep(t, payload);
    }
  }

  /** The inductive step: the first chunk re-encodes to itself. */
  lemma DecodeAllInverseStep(t: ElemType, payload: seq<Byte>)
    requires payload != [] && |payload| >= Width(t)
    requires DecodeAll(t, payload).Ok?
    requires forall k | 0 <= k < |DecodeAll(t, payload).value| :: InRange(t, DecodeAll(t, payload).value[k])
    requires var more := DecodeAll(t, payload[Width(t)..]);
      && more.Ok?
      && (forall k | 0 <= k < |more.value| :: InRange(t, more.value[k]))
      && EncodeAll(t, more.value) == payload[Width(t)..]
    ensures EncodeAll(t, DecodeAll(t, payload).value) == payload
  {
    var w := Width(t);
    var head, tail := payload[..w], payload[w..];
    var more := DecodeAll(t, tail).value;
    EncodeDecodeElem(t, head);
    SplitAt(payload, w);
    DecodeAllCons(t, head, tail, more);
    var elems := [DecodeElem(t, head)] + more;
    assert elems[0] == DecodeElem(t, head) && elems[1..] == more;
    EncodeAllCons(t, elems);
  }

  /** A non-empty payload that decodes starts with a whole element. */
  lemma DecodeAllOkStep(t: ElemType, payload: seq<Byte>)
    requires DecodeAll(t, payload).Ok? && payload != []
    ensures |payload| >= Width(t) >= 1
    ensures DecodeAll(t, payload[Width(t)..]).Ok?
  {
  }

  /** Decoding one element and then the rest. */
  lemma DecodeAllCons(t: ElemType, head: seq<Byte>, tail: seq<Byte>, more: seq<int>)
    requires |head| == Width(t)
    requires DecodeAll(t, tail) == Ok(more)
    ensures DecodeAll(t, head + tail) == Ok([DecodeElem(t, head)] + more)
  {
    var p := head + tail;
    MagicTable(t, t);
    assert p[..Width(t)] == head && p[Width(t)..] == tail;
  }

  lemma EncodeAllCons(t: ElemType, elems: seq<int>)
    requires elems != []
    requires forall k | 0 <= k < |elems| :: InRange(t, elems[k])
    ensures EncodeAll(t, elems) == EncodeElem(t, elems[0]) + EncodeAll(t, elems[1..])
  {
  }

  lemma ModStep(n: nat, b: nat)
    requires 0 < b <= n
    ensures n % b == (n - b) % b
  {
    DivStep(n, b);
  }

  /** Decoding the encoding of in-range elements gives them back. */
  lemma {:induction false} DecodeAllOfElems(t: ElemType, elems: seq<int>)
    requires forall k | 0 <= k < |elems| :: InRange(t, elems[k])
    ensures DecodeAll(t, EncodeAll(t, elems)) == Ok(elems)
  {
    if elems != [] {
      var tail := EncodeAll(t, elems[1..]);
      DecodeAllOfElems(t, elems[1..]);
      DecodeEncodeElem(t, elems[0]);
      EncodeAllCons(t, elems);
      DecodeAllCons(t, EncodeElem(t, elems[0]), tail, elems[1..]);
      assert [elems[0]] + elems[1..] == elems;
    }
  }

  /** The magic word of rank `n` and type `t` splits back into both. */
  lemma MagicSplit(t: ElemType, n: nat)
    requires n < 256
    ensures (Magic(t) * 256 + n) % 256 == n
    ensures (Magic(t) * 256 + n) / 256 == Magic(t)
    ensures Magic(t) * 256 + n < Pow256(4)
  {
    DivUnique(Magic(t) * 256 + n, 256, Magic(t), n);
  }

  /** Decoding the encoding of an encodable tensor gives it back, with the
      rank the encoding declares. */
  lemma ParseOfEncode(t: ElemType, x: Tensor)
    requires Encodable(t, x)
    ensures Parse(t, |x.shape|, Encode(t, x)) == Ok(x)
  {
    var n := |x.shape|;
    var magic := Magic(t) * 256 + n;
    var payload := EncodeAll(t, x.elems);
    var body := EncodeWords(x.shape) + payload;
    MagicSplit(t, n);
    EncodeSplit(t, x);
    ReadIntOfBytes(magic, body);
    ReadShapeOfWords(x.shape, payload);
    DecodeAllOfElems(t, x.elems);
    ParseOk(t, n, Encode(t, x), magic, body, x.shape, payload, x.elems);
  }

  lemma EncodeSplit(t: ElemType, x: Tensor)
    requires forall k | 0 <= k < |x.elems| :: InRange(t, x.elems[k])
    ensures Encode(t, x) == BeBytes(Magic(t) * 256 + |x.shape|, 4) + (EncodeWords(x.shape) + EncodeAll(t, x.elems))
  {
  }

  /** `read_sn3` succeeds once each stage does and the count matches. */
  lemma ParseOk(t: ElemType, n: nat, bs: seq<Byte>, magic: nat, rest: seq<Byte>,
                shape: seq<nat>, payload: seq<Byte>, elems: seq<int>)
    requires ReadInt(bs) == Ok((magic, rest))
    requires magic % 256 == n && magic / 256 == Magic(t)
    requires ReadShape(rest, n) == Ok((shape, payload))
    requires DecodeAll(t, payload) == Ok(elems)
    requires |elems| == Product(shape)
    ensures Parse(t, n, bs) == Ok(Tensor(shape, elems))
  {
  }

  /** Whatever decodes re-encodes to the same bytes: the decoder loses
      nothing and accepts only well-formed files of the requested rank. */
  lemma EncodeOfParse(t: ElemType, n: nat, bs: seq<Byte>)
    requires Parse(t, n, bs).Ok?
    ensures Encodable(t, Parse(t, n, bs).value)
    ensures |Parse(t, n, bs).value.shape| == n
    ensures Encode(t, Parse(t, n, bs).value) == bs
  {
    ParseOkParts(t, n, bs);
    var magic, rest := ReadInt(bs).value.0, ReadInt(bs).value.1;
    var shape, payload := ReadShape(rest, n).value.0, ReadShape(rest, n).value.1;
    var elems := DecodeAll(t, payload).value;
    ReadShapeSpec(rest, n);
    DecodeAllSpec(t, payload);
    MagicSplit(t, n);
    EncodeSplit(t, Tensor(shape, elems));
    assert BeBytes(magic, 4) + (EncodeWords(shape) + payload) == bs;
  }

  /** A successful decode passed every stage. */
  lemma ParseOkParts(t: ElemType, n: nat, bs: seq<Byte>)
    requires Parse(t, n, bs).Ok?
    ensures ReadInt(bs).Ok?
    ensures var (magic, rest) := ReadInt(bs).value;
      && magic == Magic(t) * 256 + n && n < 256
      && ReadShape(rest, n).Ok?
      && var (shape, payload) := ReadShape(rest, n).value;
      && DecodeAll(t, payload).Ok?
      && Parse(t, n, bs).value == Tensor(shape, DecodeAll(t, payload).value)
      && |DecodeAll(t, payload).value| == Product(shape)
  {
  }

  /** The checks fire in the source's order: a short header, then the rank
      byte, then the type code, then a short shape, then a partial
      trailing element, then a count that does not match the shape. */
  lemma ParseErrors(t: ElemType, n: nat, bs: seq<Byte>)
    ensures |bs| < 4 ==> Parse(t, n, bs) == Err(Truncated)
    ensures |bs| >= 4 && BeValue(bs[..4]) % 256 != n ==>
      Parse(t, n, bs) == Err(DimensionMismatch(BeValue(bs[..4]) % 256))
    ensures |bs| >= 4 && BeValue(bs[..4]) % 256 == n && BeValue(bs[..4]) / 256 != Magic(t) ==>
      Parse(t, n, bs) == Err(TypeMismatch(BeValue(bs[..4]) / 256))
    ensures HeaderMatches(t, n, bs) && |bs| < 4 + 4 * n ==> Parse(t, n, bs) == Err(Truncated)
    ensures HeaderMatches(t, n, bs) && |bs| >= 4 + 4 * n ==>
      (Parse(t, n, bs) == Err(PartialElement) <==> (|bs| - 4 - 4 * n) % Width(t) != 0)
  {
    if HeaderMatches(t, n, bs) {
      ParseAfterHeader(t, n, bs);
      ReadShapeSpec(bs[4..], n);
      if |bs| >= 4 + 4 * n {
        ParseBody(t, n, bs);
      }
    }
  }

  /** Past a matching header, the decode is the shape's and payload's. */
  lemma ParseAfterHeader(t: ElemType, n: nat, bs: seq<Byte>)
    requires HeaderMatches(t, n, bs)
    ensures ReadInt(bs) == Ok((BeValue(bs[..4]), bs[4..]))
    ensures var s := ReadShape(bs[4..], n);
      Parse(t, n, bs) == if s.Err? then Err(s.error) else ParseBodyOf(t, s.value.0, s.value.1)
  {
  }

  /** The last two stages of `read_sn3`, once the shape has been read. */
  function ParseBodyOf(t: ElemType, shape: seq<nat>, payload: seq<Byte>): Result<Tensor>
  {
    var e := DecodeAll(t, payload);
    if e.Err? then Err(e.error)
    else if |e.value| != Product(shape) then Err(ShapeMismatch)
    else Ok(Tensor(shape, e.value))
  }

  lemma ParseBody(t: ElemType, n: nat, bs: seq<Byte>)
    requires HeaderMatches(t, n, bs) && |bs| >= 4 + 4 * n
    ensures Parse(t, n, bs) == Err(PartialElement) <==> (|bs| - 4 - 4 * n) % Width(t) != 0
  {
    ParseAfterHeader(t, n, bs);
    var rest := bs[4..];
    ReadShapeSpec(rest, n);
    var (shape, payload) := ReadShape(rest, n).value;
    assert |payload| == |bs| - 4 - 4 * n by {
      assert |EncodeWords(shape)| == 4 * n;
    }
    DecodeAllSpec(t, payload);
  }

  /** The magic word announces rank `n` and element type `t`. */
  predicate HeaderMatches(t: ElemType, n: nat, bs: seq<Byte>)
  {
    |bs| >= 4 && BeValue(bs[..4]) % 256 == n && BeValue(bs[..4]) / 256 == Magic(t)
  }

  /** A label file that decodes is one dimension long and its elements are
      the bytes after the eight header bytes; an image file has three
      dimensions and its elements are the bytes after sixteen. */
  lemma LabelAndImageFiles(bs: seq<Byte>)
    ensures ReadLabelFile(bs).Ok? ==>
      |ReadLabelFile(bs).value.shape| == 1 && |bs| >= 8 && ReadLabelFile(bs).value.elems == bs[8..]
    ensures ReadImageFile(bs).Ok? ==>
      |ReadImageFile(bs).value.shape| == 3 && |bs| >= 16 && ReadImageFile(bs).value.elems == bs[16..]
  {
    if ReadLabelFile(bs).Ok? {
      EncodeOfParse(U8, 1, bs);
      U8Bytes(ReadLabelFile(bs).value.elems);
    }
    if ReadImageFile(bs).Ok? {
      EncodeOfParse(U8, 3, bs);
      U8Bytes(ReadImageFile(bs).value.elems);
    }
  }

  /** A `u8` element is its own byte. */
  lemma {:induction false} U8Bytes(elems: seq<int>)
    requires forall k | 0 <= k < |elems| :: InRange(U8, elems[k])
    ensures |EncodeAll(U8, elems)| == |elems|
    ensures forall k | 0 <= k < |elems| :: EncodeAll(U8, elems)[k] == elems[k]
  {
    if elems != [] {
      U8Bytes(elems[1..]);
      var e := EncodeAll(U8, elems);
      assert e == EncodeElem(U8, elems[0]) + EncodeAll(U8, elems[1..]);
      assert EncodeElem(U8, elems[0]) == [elems[0]];
      forall k | 0 <= k < |elems|
        ensures e[k] == elems[k]
      {
        if k > 0 {
          assert e[k] == EncodeAll(U8, elems[1..])[k - 1];
        }
      }
    }
  }

  // ---------------------------------------------------------------------
  // The stored file name

  /** The resource name up to its first `.`, or all of it when it has
      none (`split_once('.').map(|f| f.0).unwrap_or(filename)`). */
  function Stem(name: string): (r: string)
    ensures |r| <= |name|
  {
    if name == [] || name[0] == '.' then []
    else [name[0]] + Stem(name[1..])
  }

  /** The stem is the longest dot-free prefix: it is a prefix, holds no
      `.`, and is either the whole name or stops at a `.`. */
  lemma {:induction false} StemSpec(name: string)
    ensures Stem(name) == name[..|Stem(name)|]
    ensures forall k | 0 <= k < |Stem(name)| :: Stem(name)[k] != '.'
    ensures Stem(name) == name <==> forall k | 0 <= k < |name| :: name[k] != '.'
    ensures Stem(name) != name ==> name[|Stem(name)|] == '.'
  {
    if name != [] && name[0] != '.' {
      StemSpec(name[1..]);
      var r := Stem(name);
      assert r[1..] == Stem(name[1..]);
      forall k | 0 <= k < |name| - 1
        ensures name[1..][k] == name[k + 1]
      {
      }
      if forall k | 0 <= k < |name| :: name[k] != '.' {
        assert forall k | 0 <= k < |name| - 1 :: name[1..][k] != '.';
      }
    }
  }

  /** A dot-free base name followed by `.` and an extension has that base
      as its stem. */
  lemma StemOfDotted(base: string, ext: string)
    requires forall k | 0 <= k < |base| :: base[k] != '.'
    ensures Stem(base + "." + ext) == base
  {
    var name := base + "." + ext;
    assert name[..|base|] == base;
    StemUnique(name, base);
  }

  /** Those properties pin the stem down: any dot-free prefix that is the
      whole name or stops at a `.` is the stem. */
  lemma {:induction false} StemUnique(name: string, p: string)
    requires |p| <= |name| && p == name[..|p|]
    requires forall k | 0 <= k < |p| :: p[k] != '.'
    requires |p| == |name| || name[|p|] == '.'
    ensures p == Stem(name)
  {
    if p != [] {
      StemUnique(name[1..], p[1..]);
    } else if name != [] {
      assert name[0] == '.';
    }
  }
}
