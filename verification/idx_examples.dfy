/** Small IDX files and the MNIST resource names, worked through the
    decoder. */
module IdxExamples {
  import opened Idx

  /** A label file holding the three labels 7, 2, 1: the magic word
      `0x00000801` (type 8, rank 1), the length 3, then one byte each. */
  function Labels(): seq<Byte>
  {
    [0, 0, 8, 1, 0, 0, 0, 3, 7, 2, 1]
  }

  /** The magic word of `Labels()` reads as 2049: rank 1, type 8. */
  lemma LabelsHeader()
    ensures |Labels()| >= 4 && BeValue(Labels()[..4]) == 2049
  {
    BeValueOfBytes(2049, 4);
    assert Labels()[..4] == BeBytes(2049, 4);
  }

  /** `Labels()` is the encoding of the labels 7, 2, 1. */
  lemma LabelsEncoding()
    ensures Encodable(U8, Tensor([3], [7, 2, 1]))
    ensures Encode(U8, Tensor([3], [7, 2, 1])) == Labels()
  {
    LabelsEncodable();
    LabelsParts();
    WordBytes();
    ElemBytes();
  }

  /** The three parts of the encoding: magic word, shape, elements. */
  lemma LabelsParts()
    ensures Encodable(U8, Tensor([3], [7, 2, 1]))
    ensures Encode(U8, Tensor([3], [7, 2, 1])) == BeBytes(2049, 4) + EncodeWords([3]) + EncodeAll(U8, [7, 2, 1])
  {
    LabelsEncodable();
  }

  lemma ElemBytes()
    ensures Pow256(1) == 256
    ensures EncodeAll(U8, [7, 2, 1]) == [7, 2, 1]
  {
    SmallPowers();
    U8Bytes([7, 2, 1]);
  }

  lemma LabelsEncodable()
    ensures Encodable(U8, Tensor([3], [7, 2, 1]))
  {
    SmallPowers();
    assert Product([3]) == 3 * Product([]);
  }

  lemma SmallPowers()
    ensures Pow256(1) == 256 && Pow256(4) == 0x1_0000_0000
  {
    assert Pow256(2) == 0x1_0000;
  }

  lemma WordBytes()
    ensures BeBytes(2049, 4) == [0, 0, 8, 1]
    ensures EncodeWords([3]) == [0, 0, 0, 3]
  {
    assert BeBytes(0, 2) == [0, 0] && BeBytes(8, 3) == [0, 0, 8];
    assert BeBytes(0, 3) == [0, 0, 0];
    assert [3][1..] == [];
  }

  /** It decodes as a one-dimensional `u8` array of shape `[3]`; read as an
      image file it fails the rank check, having found rank 1. */
  lemma LabelFileExample()
    ensures ReadLabelFile(Labels()) == Ok(Tensor([3], [7, 2, 1]))
    ensures ReadImageFile(Labels()) == Err(DimensionMismatch(1))
  {
    LabelsEncoding();
    ParseOfEncode(U8, Tensor([3], [7, 2, 1]));
    LabelsHeader();
    assert ReadInt(Labels()).value.0 == 2049;
  }

  /** A label file announcing two labels but holding three. */
  function TwoOfThree(): seq<Byte>
  {
    [0, 0, 8, 1, 0, 0, 0, 2, 7, 2, 1]
  }

  lemma TwoOfThreeShape()
    ensures |TwoOfThree()| >= 4 && BeValue(TwoOfThree()[..4]) == 2049
    ensures ReadShape(TwoOfThree()[4..], 1) == Ok(([2], [7, 2, 1]))
  {
    var bs := TwoOfThree();
    assert bs[..4] == Labels()[..4];
    LabelsHeader();
    SmallPowers();
    WordBytes();
    assert BeBytes(2, 4) == [0, 0, 0, 2] by {
      assert BeBytes(0, 3) == [0, 0, 0];
    }
    assert EncodeWords([2]) == [0, 0, 0, 2] by {
      assert [2][1..] == [];
    }
    assert bs[4..] == EncodeWords([2]) + [7, 2, 1];
    ReadShapeOfWords([2], [7, 2, 1]);
  }

  lemma TwoOfThreeElems()
    ensures DecodeAll(U8, TwoOfThree()[8..]) == Ok([7, 2, 1])
  {
    ElemBytes();
    DecodeAllOfElems(U8, [7, 2, 1]);
    assert TwoOfThree()[8..] == [7, 2, 1];
  }

  /** The elements decode, but three of them do not fill shape `[2]`. */
  lemma ShapeMismatchExample()
    ensures ReadLabelFile(TwoOfThree()) == Err(ShapeMismatch)
  {
    var bs := TwoOfThree();
    TwoOfThreeShape();
    TwoOfThreeElems();
    assert ReadInt(bs) == Ok((2049, bs[4..]));
    assert bs[4..][4..] == bs[8..];
    assert Product([2]) == 2 * Product([]);
  }

  /** The resources are stored under their names without `.gz`. */
  lemma ResourceStems()
    ensures Stem("train-images-idx3-ubyte.gz") == "train-images-idx3-ubyte"
    ensures Stem("t10k-labels-idx1-ubyte.gz") == "t10k-labels-idx1-ubyte"
  {
    var train := "train-images-idx3-ubyte";
    var test := "t10k-labels-idx1-ubyte";
    assert forall k | 0 <= k < |train| :: train[k] != '.';
    assert forall k | 0 <= k < |test| :: test[k] != '.';
    StemOfDotted(train, "gz");
    StemOfDotted(test, "gz");
    assert train + "." + "gz" == "train-images-idx3-ubyte.gz";
    assert test + "." + "gz" == "t10k-labels-idx1-ubyte.gz";
  }
}
