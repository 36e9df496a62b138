/** Small worked inputs, each stating what the program does with them. */
module Scenarios {

  import opened Wrappers
  import opened Bytes
  import opened ColorTypes
  import opened Reconstruction
  import opened Descriptors
  import opened MaskLinking
  import opened Logging
  import opened Emission

  /** A 2 by 1 RGB image is its six colour bytes. */
  lemma RgbTwoPixels()
    ensures Reconstructed(Rgb, 2, 1, [10, 20, 30, 40, 50, 60], []) == [10, 20, 30, 40, 50, 60]
  {
    RgbIsVerbatim(2, 1, [10, 20, 30, 40, 50, 60], []);
  }

  /** A 1 by 1 gray image stays black whatever its byte holds: the only
      iteration writes to index 1, past the end of the buffer. */
  lemma GrayOnePixelIsBlack(b: byte)
    ensures Reconstructed(Grayscale, 1, 1, [b], []) == [0x00]
  {
  }

  /** A 16 by 1 gray image from the single byte 0xFF: bits 8 to 15 read that
      byte and land at indices 8 down to 1; bits 0 to 7 read past the end
      and leave indices 9 to 15 black, as is index 0. */
  lemma GraySixteenPixels()
    ensures var data := Reconstructed(Grayscale, 16, 1, [0xFF], []);
      forall j :: 0 <= j < 16 ==> data[j] == if 1 <= j <= 8 then 0xFF else 0x00
  {
    var data := Reconstructed(Grayscale, 16, 1, [0xFF], []);
    forall j | 0 <= j < 16
      ensures data[j] == if 1 <= j <= 8 then 0xFF else 0x00
    {
      if j > 0 {
        GrayscalePixel(16, 1, [0xFF], [], 16 - j);
        if j <= 8 {
          BitReader.ReadBitOfByte([0xFF], 1, 8 - j);
          assert BitReader.BitOfByte(0xFF, 8 - j) == 1;
        }
      }
    }
  }

  /** A 1 by 1 colour pixel with a separate one-byte alpha stream takes as
      alpha the alpha byte at index 2, which is past the end of that stream. */
  lemma RgbAlphaTakesThirdAlphaByte()
    ensures Reconstructed(RgbAlpha, 1, 1, [10, 20, 30], [99]) == [10, 20, 30, 0]
  {
    RgbAlphaPixel(1, 1, [10, 20, 30], [99], 0);
  }

  function Identity(s: seq<byte>): seq<byte> { s }

  /** Through the whole program a linked colour image's alpha stream is its
      own data, so the pixel [10, 20, 30] is written with alpha 30. */
  lemma LinkedRgbPixelAlphaIsBlue(rec: ImageRecord)
    requires rec.kind == Png && rec.hasAlphaLayer && !IsGrayscale(rec.colorSpace)
    requires rec.width == 1 && rec.height == 1 && rec.data == [10, 20, 30]
    ensures Render(rec, Identity) == PngImage(RgbAlpha, 1, 1, [10, 20, 30, 30])
  {
    RgbAlphaPixel(1, 1, [10, 20, 30], [10, 20, 30], 0);
  }

  function Dict(smask: Option<Ref>, filter: Option<Value>): StreamDict {
    StreamDict(smask, Some(Name("DeviceRGB")), Some(Name("Image")), Some(1), Some(1), None, Some(8), filter)
  }

  /** The record collected for a stream at position `objectIdx` of the
      index, when it has no `Name`. */
  function RecordOf(obj: IndexedObject, objectIdx: nat): ImageRecord
    requires obj.RawStream?
  {
    var d := obj.dict;
    ImageRecord(obj.ref, d.smask, d.colorSpace, "Object" + Decimal(objectIdx), 1, 1, 8,
      obj.content, KindOf(d.filter), false, false)
  }

  /** An image whose soft mask names an object that is not in the index
      aborts the run before any file is written. */
  lemma MissingMaskAbortsRun()
    ensures Extract([RawStream(Ref(1, 0), Dict(Some(Ref(9, 0)), None), [])], Identity)
      == Err(MissingMask("Object1", Ref(9, 0)))
  {
    var o := RawStream(Ref(1, 0), Dict(Some(Ref(9, 0)), None), []);
    var objs := [o];
    assert objs[..0] == [];
    assert Decimal(1) == "1";
    var rec := RecordOf(o, 1);
    assert Classify(1, o) == Ok(Some(rec));
    assert Collect([]) == Ok([]);
    assert objs[|objs| - 1] == o;
    assert Collect(objs) == Ok([] + [rec]);
    assert [] + [rec] == [rec];
    assert FindByRef([rec], Ref(9, 0)) == None;
    assert Unresolved([rec], 0);
    assert FirstUnresolved([rec]) == 0;
    assert rec.name == "Object1";
    assert Link([rec]) == Err(MissingMask("Object1", Ref(9, 0)));
  }

  /** A JPEG image stream without a `ColorSpace` aborts the run when the
      report reaches it, although it would have been written unchanged. */
  lemma MissingColorSpaceAbortsRun()
    ensures var d := StreamDict(None, None, Some(Name("Image")), Some(1), Some(1), None, Some(8), Some(Name("DCTDecode")));
      Extract([RawStream(Ref(1, 0), d, [3])], Identity) == Err(MissingColorSpace("Object1"))
  {
    var d := StreamDict(None, None, Some(Name("Image")), Some(1), Some(1), None, Some(8), Some(Name("DCTDecode")));
    var o := RawStream(Ref(1, 0), d, [3]);
    var objs := [o];
    assert objs[..0] == [];
    assert Decimal(1) == "1";
    var rec := RecordOf(o, 1);
    assert Classify(1, o) == Ok(Some(rec));
    assert Collect([]) == Ok([]);
    assert objs[|objs| - 1] == o;
    assert Collect(objs) == Ok([] + [rec]);
    assert [] + [rec] == [rec];
    assert !NeedsMask(rec) && !Unresolved([rec], 0) && !IsMaskOfPrefix([rec], 1, 0);
    assert LinkedUpTo([rec], 1)[0] == rec && LinkedUpTo([rec], 1) == [rec];
    assert Link([rec]) == Ok([rec]);
    assert FirstMissingColorSpace([rec]) == Some(0);
    assert rec.name == "Object1";
  }

  // Three images where the second is the soft mask of the first, and the
  // third is a JPEG.
  const First := RawStream(Ref(1, 0), Dict(Some(Ref(2, 0)), None), [1])
  const Mask := RawStream(Ref(2, 0), Dict(None, None), [2])
  const Photo := RawStream(Ref(3, 0), Dict(None, Some(Name("DCTDecode"))), [3])

  lemma ThreeCollected()
    ensures Collect([First, Mask, Photo]) == Ok([RecordOf(First, 1), RecordOf(Mask, 2), RecordOf(Photo, 3)])
  {
    var objs := [First, Mask, Photo];
    var r1, r2, r3 := RecordOf(First, 1), RecordOf(Mask, 2), RecordOf(Photo, 3);
    assert Classify(1, First) == Ok(Some(r1));
    assert Classify(2, Mask) == Ok(Some(r2));
    assert Classify(3, Photo) == Ok(Some(r3));
    assert objs[..2] == [First, Mask] && [First, Mask][..1] == [First] && [First][..0] == [];
    assert Collect([]) == Ok([]);
    assert Collect([First]) == Ok([] + [r1]) && [] + [r1] == [r1];
    assert Collect([First, Mask]) == Ok([r1] + [r2]) && [r1] + [r2] == [r1, r2];
    assert Collect(objs) == Ok([r1, r2] + [r3]) && [r1, r2] + [r3] == [r1, r2, r3];
  }

  lemma ThreeLinked()
    ensures var r1, r2, r3 := RecordOf(First, 1), RecordOf(Mask, 2), RecordOf(Photo, 3);
      Link([r1, r2, r3]) == Ok([r1.(hasAlphaLayer := true), r2.(isAlphaLayer := true), r3])
  {
    var r1, r2, r3 := RecordOf(First, 1), RecordOf(Mask, 2), RecordOf(Photo, 3);
    var records := [r1, r2, r3];
    assert FindByRef(records, Ref(2, 0)) == Some(1);
    assert !Unresolved(records, 0) && !Unresolved(records, 1) && !Unresolved(records, 2);
    assert IsMaskOfPrefix(records, 3, 1);
    assert !IsMaskOfPrefix(records, 3, 0);
    assert !IsMaskOfPrefix(records, 3, 2);
    var linked := [r1.(hasAlphaLayer := true), r2.(isAlphaLayer := true), r3];
    var t := LinkedUpTo(records, 3);
    assert t[0] == linked[0] && t[1] == linked[1] && t[2] == linked[2];
    assert t == linked;
  }

  lemma TwoEmitted(l0: ImageRecord, l1: ImageRecord, l2: ImageRecord)
    requires !l0.isAlphaLayer && l1.isAlphaLayer && !l2.isAlphaLayer
    ensures Emitted([l0, l1, l2]) == [l0, l2]
  {
    assert [l0, l1, l2][..2] == [l0, l1] && [l0, l1][..1] == [l0] && [l0][..0] == [];
    assert Emitted([]) == [];
    assert Emitted([l0]) == [] + [l0] && [] + [l0] == [l0];
    assert Emitted([l0, l1]) == [l0] + [] && [l0] + [] == [l0];
    assert Emitted([l0, l1, l2]) == [l0] + [l2];
  }

  lemma TwoFiles(l0: ImageRecord, l1: ImageRecord, l2: ImageRecord)
    requires !l0.isAlphaLayer && l1.isAlphaLayer && !l2.isAlphaLayer
    ensures OutputFiles([l0, l1, l2], Identity)
      == [OutputFile("out1.png", Render(l0, Identity)), OutputFile("out2.png", Render(l2, Identity))]
  {
    TwoEmitted(l0, l1, l2);
    assert Decimal(1) == "1" && Decimal(2) == "2";
    assert FileName(1) == "out1.png" && FileName(2) == "out2.png";
  }

  /** The run over those three images gives two files, `out1.png` for the
      first and `out2.png` for the JPEG, written unchanged; the mask gets no
      file of its own. */
  lemma MaskIsSkipped()
    ensures var r := Extract([First, Mask, Photo], Identity);
      && r.Ok? && |r.value| == 2
      && r.value[0].name == "out1.png" && r.value[0].content.PngImage?
      && r.value[1] == OutputFile("out2.png", Passthrough([3]))
  {
    var r1, r2, r3 := RecordOf(First, 1), RecordOf(Mask, 2), RecordOf(Photo, 3);
    ThreeCollected();
    ThreeLinked();
    var linked := [r1.(hasAlphaLayer := true), r2.(isAlphaLayer := true), r3];
    TwoFiles(linked[0], linked[1], linked[2]);
    assert Extract([First, Mask, Photo], Identity) == Ok(OutputFiles(linked, Identity));
  }
}
