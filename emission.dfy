/** Writing the images out: `savePng` for PNG-kind records, the raw bytes
    for JPEG records, one numbered file per record that is not an alpha
    layer, and the whole run from the object index to the files. */
module Emission {

  import opened Wrappers
  import opened Bytes
  import opened ColorTypes
  import opened Reconstruction
  import opened Descriptors
  import opened MaskLinking
  import opened Logging

  /** What is written for one image: JPEG data unchanged, or the input of
      the PNG encoder (colour type, dimensions and pixel buffer). */
  datatype Content =
    | Passthrough(bytes: seq<byte>)
    | PngImage(colorType: ColorType, width: nat, height: nat, pixels: seq<byte>)

  datatype OutputFile = OutputFile(name: string, content: Content)

  predicate IsGrayscale(colorSpace: Option<Value>)
    ensures IsGrayscale(colorSpace) ==> colorSpace.Some?
  {
    colorSpace == Some(Name("DeviceGray"))
  }

  /** What `savePng` hands to the encoder. The colour stream is the inflated
      record data; the alpha stream is the inflated data of the record's
      alpha layer, which is the record itself. */
  function PngOf(rec: ImageRecord, inflate: seq<byte> -> seq<byte>): (c: Content)
    ensures c.PngImage? && c.width == rec.width && c.height == rec.height
    ensures c.colorType.HasAlpha() == rec.hasAlphaLayer
    ensures |c.pixels| == rec.width * rec.height * c.colorType.Components()
  {
    var ct := ChooseColorType(IsGrayscale(rec.colorSpace), rec.hasAlphaLayer);
    var colorPixels := inflate(rec.data);
    var alphaPixels := if rec.hasAlphaLayer then inflate(rec.data) else [];
    PngImage(ct, rec.width, rec.height, Reconstructed(ct, rec.width, rec.height, colorPixels, alphaPixels))
  }

  /** `img.type === 'jpg' ? img.data : await savePng(img)`. */
  function Render(rec: ImageRecord, inflate: seq<byte> -> seq<byte>): (c: Content)
    ensures rec.kind == Jpg ==> c == Passthrough(rec.data)
    ensures rec.kind == Png ==> c.PngImage? && c.width == rec.width && c.height == rec.height
  {
    if rec.kind == Jpg then Passthrough(rec.data) else PngOf(rec, inflate)
  }

  /** `savePng` up to the encoder: choose the colour type, inflate the two
      streams, run the pixel loop. */
  method SavePng(rec: ImageRecord, inflate: seq<byte> -> seq<byte>) returns (c: Content)
    ensures c.PngImage? && c.width == rec.width && c.height == rec.height
    ensures c.colorType.HasAlpha() == rec.hasAlphaLayer
    ensures |c.pixels| == rec.width * rec.height * c.colorType.Components()
    ensures c == PngOf(rec, inflate)
  {
    var isGrayscale := IsGrayscale(rec.colorSpace);
    var colorPixels := inflate(rec.data);
    var alphaPixels := if rec.hasAlphaLayer then inflate(rec.data) else [];
    var colorType := ChooseColorType(isGrayscale, rec.hasAlphaLayer);
    var pixels := Reconstruct(colorType, rec.width, rec.height, colorPixels, alphaPixels);
    c := PngImage(colorType, rec.width, rec.height, pixels);
  }

  /** `./images/out<k>.png`, named inside the output directory. */
  function FileName(k: nat): (name: string)
    ensures |name| == 3 + |Decimal(k)| + 4
    ensures name[..3] == "out" && name[3..|name| - 4] == Decimal(k) && name[|name| - 4..] == ".png"
  {
    "out" + Decimal(k) + ".png"
  }

  /** Distinct counters give distinct file names, so no file overwrites
      another. */
  lemma FileNameInjective(j: nat, k: nat)
    requires j != k
    ensures FileName(j) != FileName(k)
  {
    if FileName(j) == FileName(k) {
      var a, b := FileName(j), FileName(k);
      assert Decimal(j) == a[3..|a| - 4] == b[3..|b| - 4] == Decimal(k);
      DecimalInjective(j, k);
    }
  }

  /** The records written out: those that are not alpha layers, in order. */
  function Emitted(s: seq<ImageRecord>): (e: seq<ImageRecord>)
    ensures |e| <= |s|
    ensures forall i :: 0 <= i < |e| ==> !e[i].isAlphaLayer
  {
    if s == [] then []
    else Emitted(s[..|s| - 1]) + (if s[|s| - 1].isAlphaLayer then [] else [s[|s| - 1]])
  }

  /** The files written for the records, numbered from 1 without gaps. */
  function OutputFiles(s: seq<ImageRecord>, inflate: seq<byte> -> seq<byte>): (files: seq<OutputFile>)
    ensures |files| == |Emitted(s)|
  {
    var e := Emitted(s);
    seq(|e|, k requires 0 <= k < |e| => OutputFile(FileName(k + 1), Render(e[k], inflate)))
  }

  /** The loop over `imagesInDoc` after the output directory is cleared:
      `idx` counts the files written. */
  method EmitAll(imagesInDoc: seq<ImageRecord>, inflate: seq<byte> -> seq<byte>) returns (files: seq<OutputFile>)
    ensures files == OutputFiles(imagesInDoc, inflate)
  {
    files := [];
    var idx := 0;
    var i := 0;
    while i < |imagesInDoc|
      invariant i <= |imagesInDoc| && idx == |files|
      invariant files == OutputFiles(imagesInDoc[..i], inflate)
    {
      var img := imagesInDoc[i];
      assert imagesInDoc[..i + 1][..i] == imagesInDoc[..i];
      if !img.isAlphaLayer {
        var imageData;
        if img.kind == Jpg {
          imageData := Passthrough(img.data);
        } else {
          imageData := SavePng(img, inflate);
        }
        files := files + [OutputFile(FileName(idx + 1), imageData)];
        idx := idx + 1;
      }
      i := i + 1;
    }
    assert imagesInDoc[..i] == imagesInDoc;
  }

  // Properties of the emission.

  /** A record is written out exactly when it is one of the records and is
      not an alpha layer. */
  lemma {:induction false} EmittedExactlyNonMasks(s: seq<ImageRecord>, x: ImageRecord)
    ensures x in Emitted(s) <==> x in s && !x.isAlphaLayer
  {
    if s != [] {
      var init := s[..|s| - 1];
      EmittedExactlyNonMasks(init, x);
      assert s == init + [s[|s| - 1]];
    }
  }

  /** Emission keeps the order of the records: the records of a
      concatenation are the records of each part, one after the other. */
  lemma {:induction false} EmittedAppend(s: seq<ImageRecord>, t: seq<ImageRecord>)
    ensures Emitted(s + t) == Emitted(s) + Emitted(t)
    decreases |t|
  {
    if t == [] {
      assert s + t == s;
    } else {
      var u := s + t;
      assert u[..|u| - 1] == s + t[..|t| - 1];
      EmittedAppend(s, t[..|t| - 1]);
    }
  }

  /** Every written file has its own name. */
  lemma OutputNamesDistinct(s: seq<ImageRecord>, inflate: seq<byte> -> seq<byte>, i: nat, j: nat)
    requires i < j < |OutputFiles(s, inflate)|
    ensures OutputFiles(s, inflate)[i].name != OutputFiles(s, inflate)[j].name
  {
    FileNameInjective(i + 1, j + 1);
  }

  /** A JPEG record's file holds exactly its stored bytes. */
  lemma JpegPassesThrough(s: seq<ImageRecord>, inflate: seq<byte> -> seq<byte>, k: nat)
    requires k < |Emitted(s)| && Emitted(s)[k].kind == Jpg
    ensures OutputFiles(s, inflate)[k] == OutputFile(FileName(k + 1), Passthrough(Emitted(s)[k].data))
  {
  }

  /** Because an image's alpha layer is the image itself, the alpha stream
      is its own inflated colour stream: for a linked colour image the alpha
      of pixel `k` repeats that pixel's third colour byte, and for a linked
      gray image alpha byte `k` is byte `k` of the colour stream. */
  lemma SelfAlpha(rec: ImageRecord, inflate: seq<byte> -> seq<byte>, k: nat)
    requires rec.kind == Png && rec.hasAlphaLayer && k < rec.width * rec.height
    ensures var c := Render(rec, inflate);
      var n := |c.pixels|;
      && c.PngImage?
      && (!IsGrayscale(rec.colorSpace) ==> c.colorType == RgbAlpha && c.pixels[4 * k + 3] == c.pixels[4 * k + 2])
      && (IsGrayscale(rec.colorSpace) ==>
            c.colorType == GrayscaleAlpha && c.pixels[n - 2 * k - 1] == At(inflate(rec.data), k))
  {
    var color := inflate(rec.data);
    if IsGrayscale(rec.colorSpace) {
      GrayscaleAlphaPixel(rec.width, rec.height, color, color, k);
    } else {
      RgbAlphaPixel(rec.width, rec.height, color, color, k);
    }
  }

  // The whole run.

  /** From the object index to the written files: collection, linking of
      soft masks, the report on every record, then emission. An error in
      any of the first three phases aborts the run before any file is
      written. */
  function Extract(objs: seq<IndexedObject>, inflate: seq<byte> -> seq<byte>): (r: Result<seq<OutputFile>, Error>)
    ensures r.Ok? ==> |r.value| <= |objs|
    ensures r.Ok? ==> forall k :: 0 <= k < |r.value| ==> r.value[k].name == FileName(k + 1)
  {
    match Collect(objs)
    case Err(e) => Err(e)
    case Ok(records) =>
      match Link(records)
      case Err(e) => Err(e)
      case Ok(linked) =>
        match FirstMissingColorSpace(linked)
        case Some(i) => Err(MissingColorSpace(linked[i].name))
        case None => Ok(OutputFiles(linked, inflate))
  }

  method ExtractImages(objs: seq<IndexedObject>, inflate: seq<byte> -> seq<byte>)
    returns (r: Result<seq<OutputFile>, Error>)
    ensures r == Extract(objs, inflate)
  {
    var collected := CollectImages(objs);
    if collected.Err? {
      return Err(collected.error);
    }
    var records := collected.value;
    var imagesInDoc := new ImageRecord[|records|](i requires 0 <= i < |records| => records[i]);
    assert imagesInDoc[..] == records;
    var linked := LinkMasks(imagesInDoc);
    if linked.Err? {
      return Err(linked.error);
    }
    var missing := LogImages(imagesInDoc);
    if missing.Some? {
      return Err(MissingColorSpace(imagesInDoc[missing.value].name));
    }
    var files := EmitAll(imagesInDoc[..], inflate);
    r := Ok(files);
  }

  /** Once collection and linking succeed, the run still aborts when a
      record has no colour space, naming the first such record. */
  lemma ColorSpaceAborts(objs: seq<IndexedObject>, inflate: seq<byte> -> seq<byte>)
    requires Collect(objs).Ok? && Link(Collect(objs).value).Ok?
    ensures var records := Collect(objs).value;
      var r := Extract(objs, inflate);
      && (r.Ok? <==> forall k :: 0 <= k < |records| ==> records[k].colorSpace.Some?)
      && (r.Err? ==>
            exists k :: 0 <= k < |records| && records[k].colorSpace.None?
              && r.error == MissingColorSpace(records[k].name)
              && forall j :: 0 <= j < k ==> records[j].colorSpace.Some?)
  {
    var records := Collect(objs).value;
    var linked := Link(records).value;
    forall j | 0 <= j < |records|
      ensures linked[j].colorSpace == records[j].colorSpace && linked[j].name == records[j].name
    {
      LinkChangesOnlyFlags(records, j);
    }
  }

  /** In terms of the index: once collection and linking succeed, the run
      succeeds exactly when every image stream has a `ColorSpace`. */
  lemma ExtractNeedsColorSpaces(objs: seq<IndexedObject>, inflate: seq<byte> -> seq<byte>)
    requires Collect(objs).Ok? && Link(Collect(objs).value).Ok?
    ensures Extract(objs, inflate).Ok? <==>
      forall k :: 0 <= k < |objs| && IsImage(objs[k]) ==> objs[k].dict.colorSpace.Some?
  {
    var records := Collect(objs).value;
    ColorSpaceAborts(objs, inflate);
    if Extract(objs, inflate).Ok? {
      forall k | 0 <= k < |objs| && IsImage(objs[k])
        ensures objs[k].dict.colorSpace.Some?
      {
        CollectComplete(objs, k);
      }
    } else {
      var i :| 0 <= i < |records| && records[i].colorSpace.None?;
      CollectSound(objs, i);
    }
  }

  /** No file of a run is written for a record that some image names as its
      soft mask. The object index is keyed by reference, so its references
      are distinct. */
  lemma MasksAreNotWritten(objs: seq<IndexedObject>, inflate: seq<byte> -> seq<byte>, k: nat)
    requires forall a, b :: 0 <= a < b < |objs| ==> objs[a].ref != objs[b].ref
    requires Extract(objs, inflate).Ok? && k < |Extract(objs, inflate).value|
    ensures var records := Collect(objs).value;
      var rec := Emitted(Link(records).value)[k];
      && rec in Link(records).value && !rec.isAlphaLayer
      && forall i :: 0 <= i < |records| && NeedsMask(records[i]) ==> records[i].smaskRef.value != rec.ref
  {
    var records := Collect(objs).value;
    var linked := Link(records).value;
    var rec := Emitted(linked)[k];
    EmittedExactlyNonMasks(linked, rec);
    var j :| 0 <= j < |linked| && linked[j] == rec;
    CollectDistinctRefs(objs);
    LinkChangesOnlyFlags(records, j);
    forall i | 0 <= i < |records| && NeedsMask(records[i])
      ensures records[i].smaskRef.value != rec.ref
    {
      assert !Unresolved(records, i);
      var m := FindByRef(records, records[i].smaskRef.value).value;
      assert IsMaskOfPrefix(records, |records|, m);
      assert linked[m].isAlphaLayer && m != j;
      assert records[m].ref != records[j].ref;
    }
  }

  /** Records collected from an index with distinct references have distinct
      references. */
  lemma {:induction false} CollectDistinctRefs(objs: seq<IndexedObject>)
    requires forall a, b :: 0 <= a < b < |objs| ==> objs[a].ref != objs[b].ref
    requires Collect(objs).Ok?
    ensures var records := Collect(objs).value;
      forall a, b :: 0 <= a < b < |records| ==> records[a].ref != records[b].ref
  {
    if objs != [] {
      var last := |objs| - 1;
      var init := objs[..last];
      CollectDistinctRefs(init);
      var records := Collect(init).value;
      forall a | 0 <= a < |records|
        ensures records[a].ref != objs[last].ref
      {
        CollectSound(init, a);
        var k :| 0 <= k < |init| && IsImage(init[k]) && Classify(k + 1, init[k]) == Ok(Some(records[a]));
        assert init[k] == objs[k];
      }
    }
  }
}
