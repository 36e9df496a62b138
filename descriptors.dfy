/** Turning the document's indexed objects into image records: which objects
    are images, what each record holds, and how an unnamed image is named. */
module Descriptors {

  import opened Wrappers
  import opened Bytes

  /** An indirect reference (object number, generation) of the document's
      cross-reference index; equal references denote the same object. */
  datatype Ref = Ref(objectNumber: nat, generation: nat)

  /** A looked-up dictionary value that is compared against fixed names:
      a name object, or anything else (an array, a dictionary, a number). */
  datatype Value = Name(key: string) | OtherValue

  /** The attributes read from a stream's dictionary. Absent entries are
      `None`; `SMask` is kept as the unresolved reference; `Width`,
      `Height` and `BitsPerComponent` are given by their numbers and `Name`
      by its key. */
  datatype StreamDict = StreamDict(
    smask: Option<Ref>,
    colorSpace: Option<Value>,
    subtype: Option<Value>,
    width: Option<nat>,
    height: Option<nat>,
    name: Option<string>,
    bitsPerComponent: Option<nat>,
    filter: Option<Value>)

  /** One entry of the document's object index, in index order. */
  datatype IndexedObject =
    | RawStream(ref: Ref, dict: StreamDict, content: seq<byte>)
    | NonStream(ref: Ref)

  /** How an image is written out: JPEG data as it is, anything else
      inflated and re-encoded as PNG. */
  datatype Kind = Png | Jpg

  /** One entry of `imagesInDoc`. `isAlphaLayer` marks a record that some
      image names as its soft mask; `hasAlphaLayer` records that the image
      was linked to an alpha layer, which the program sets to the image
      itself. */
  datatype ImageRecord = ImageRecord(
    ref: Ref,
    smaskRef: Option<Ref>,
    colorSpace: Option<Value>,
    name: string,
    width: nat,
    height: nat,
    bitsPerComponent: nat,
    data: seq<byte>,
    kind: Kind,
    isAlphaLayer: bool,
    hasAlphaLayer: bool)

  /** Why a run aborts: an image without a required attribute, a soft mask
      that is not in the index, or an image without a `ColorSpace`, whose
      absent value the logging cannot turn into text. */
  datatype Error =
    | MissingAttribute(ref: Ref, attribute: string)
    | MissingMask(name: string, smaskRef: Ref)
    | MissingColorSpace(name: string)

  /** Only streams are looked at; among them, those of subtype `Image`. */
  predicate IsImage(obj: IndexedObject)
    ensures IsImage(obj) ==> obj.RawStream?
  {
    obj.RawStream? && obj.dict.subtype == Some(Name("Image"))
  }

  /** `type: filter === PDFName.from('DCTDecode') ? 'jpg' : 'png'`. */
  function KindOf(filter: Option<Value>): (k: Kind)
    ensures k == Jpg <==> filter == Some(Name("DCTDecode"))
  {
    if filter == Some(Name("DCTDecode")) then Jpg else Png
  }

  /** The record name: the `Name` key, or `Object<objectIdx>` where
      `objectIdx` counts every indexed object up to and including this one. */
  function NameOf(name: Option<string>, objectIdx: nat): (s: string)
    ensures name.Some? ==> s == name.value
    ensures name.None? ==> s == "Object" + Decimal(objectIdx)
  {
    if name.Some? then name.value else "Object" + Decimal(objectIdx)
  }

  /** The record built for the `objectIdx`-th indexed object: `Ok(None)` for
      an object that is not an image, an error when an image lacks `Width`,
      `Height` or `BitsPerComponent` (reading `.number` of an absent value
      throws; they are read in that order). */
  function Classify(objectIdx: nat, obj: IndexedObject): (r: Result<Option<ImageRecord>, Error>)
    ensures !IsImage(obj) ==> r == Ok(None)
    ensures r.Err? <==>
      (IsImage(obj) && (obj.dict.width.None? || obj.dict.height.None? || obj.dict.bitsPerComponent.None?))
    ensures r.Ok? && r.value.Some? ==>
      IsImage(obj)
      && var rec := r.value.value;
      && rec.ref == obj.ref && rec.data == obj.content && rec.smaskRef == obj.dict.smask
      && rec.colorSpace == obj.dict.colorSpace
      && Some(rec.width) == obj.dict.width && Some(rec.height) == obj.dict.height
      && Some(rec.bitsPerComponent) == obj.dict.bitsPerComponent
      && rec.name == NameOf(obj.dict.name, objectIdx)
      && rec.kind == KindOf(obj.dict.filter)
      && !rec.isAlphaLayer && !rec.hasAlphaLayer
  {
    if !IsImage(obj) then Ok(None)
    else
      var d := obj.dict;
      if d.width.None? then Err(MissingAttribute(obj.ref, "Width"))
      else if d.height.None? then Err(MissingAttribute(obj.ref, "Height"))
      else if d.bitsPerComponent.None? then Err(MissingAttribute(obj.ref, "BitsPerComponent"))
      else Ok(Some(ImageRecord(
        obj.ref, d.smask, d.colorSpace, NameOf(d.name, objectIdx),
        d.width.value, d.height.value, d.bitsPerComponent.value,
        obj.content, KindOf(d.filter), false, false)))
  }

  /** The records collected from the index, in index order; the first
      classification error aborts. */
  function Collect(objs: seq<IndexedObject>): (r: Result<seq<ImageRecord>, Error>)
    ensures r.Ok? ==> |r.value| <= |objs|
    ensures r.Ok? ==> forall i :: 0 <= i < |r.value| ==> !r.value[i].isAlphaLayer && !r.value[i].hasAlphaLayer
    ensures r.Err? ==> r.error.MissingAttribute?
  {
    if objs == [] then Ok([])
    else
      match Collect(objs[..|objs| - 1])
      case Err(e) => Err(e)
      case Ok(records) =>
        match Classify(|objs|, objs[|objs| - 1])
        case Err(e) => Err(e)
        case Ok(None) => Ok(records)
        case Ok(Some(rec)) => Ok(records + [rec])
  }

  /** The `forEach` over the index: `objectIdx` is incremented for every
      object, before non-stream objects are skipped. */
  method CollectImages(objs: seq<IndexedObject>) returns (r: Result<seq<ImageRecord>, Error>)
    ensures r == Collect(objs)
  {
    var imagesInDoc: seq<ImageRecord> := [];
    var objectIdx: nat := 0;
    while objectIdx < |objs|
      invariant objectIdx <= |objs|
      invariant Collect(objs[..objectIdx]) == Ok(imagesInDoc)
    {
      var obj := objs[objectIdx];
      objectIdx := objectIdx + 1;
      assert objs[..objectIdx][..objectIdx - 1] == objs[..objectIdx - 1];
      match Classify(objectIdx, obj)
      case Err(e) =>
        CollectStopsAtError(objs, objectIdx);
        return Err(e);
      case Ok(None) =>
      case Ok(Some(rec)) =>
        imagesInDoc := imagesInDoc + [rec];
    }
    assert objs[..objectIdx] == objs;
    r := Ok(imagesInDoc);
  }

  /** Once one prefix fails, every longer prefix fails the same way. */
  lemma {:induction false} CollectStopsAtError(objs: seq<IndexedObject>, n: nat)
    requires n <= |objs| && Collect(objs[..n]).Err?
    ensures Collect(objs) == Collect(objs[..n])
    decreases |objs| - n
  {
    if n < |objs| {
      assert objs[..n + 1][..n] == objs[..n];
      CollectStopsAtError(objs, n + 1);
    } else {
      assert objs[..n] == objs;
    }
  }

  /** Every collected record comes from an image stream at some position `k`
      of the index, with its reference, and is named after `k + 1` when it
      has no `Name`. */
  lemma {:induction false} CollectSound(objs: seq<IndexedObject>, i: nat)
    requires Collect(objs).Ok? && i < |Collect(objs).value|
    ensures exists k ::
      0 <= k < |objs| && IsImage(objs[k]) && Classify(k + 1, objs[k]) == Ok(Some(Collect(objs).value[i]))
  {
    var last := |objs| - 1;
    var records := Collect(objs[..last]).value;
    if i < |records| {
      CollectSound(objs[..last], i);
      var k :| 0 <= k < last && IsImage(objs[..last][k])
        && Classify(k + 1, objs[..last][k]) == Ok(Some(records[i]));
      assert objs[..last][k] == objs[k];
    } else {
      assert Classify(last + 1, objs[last]) == Ok(Some(Collect(objs).value[i]));
    }
  }

  /** Every image stream of the index yields a record with its reference. */
  lemma {:induction false} CollectComplete(objs: seq<IndexedObject>, k: nat)
    requires Collect(objs).Ok? && k < |objs| && IsImage(objs[k])
    ensures exists i ::
      0 <= i < |Collect(objs).value| && Classify(k + 1, objs[k]) == Ok(Some(Collect(objs).value[i]))
  {
    var last := |objs| - 1;
    var records := Collect(objs[..last]).value;
    if k < last {
      assert objs[..last][k] == objs[k];
      CollectComplete(objs[..last], k);
      var i :| 0 <= i < |records| && Classify(k + 1, objs[k]) == Ok(Some(records[i]));
      assert Collect(objs).value[i] == records[i];
    } else {
      assert Collect(objs).value[|records|] == Classify(k + 1, objs[k]).value.value;
    }
  }

  /** An image stream without `Width`, `Height` or `BitsPerComponent`
      anywhere in the index aborts the collection. */
  lemma {:induction false} MissingAttributeAborts(objs: seq<IndexedObject>, k: nat)
    requires k < |objs| && IsImage(objs[k])
    requires objs[k].dict.width.None? || objs[k].dict.height.None? || objs[k].dict.bitsPerComponent.None?
    ensures Collect(objs).Err?
  {
    var last := |objs| - 1;
    if k < last {
      assert objs[..last][k] == objs[k];
      MissingAttributeAborts(objs[..last], k);
    }
  }

  /** The positions of the image streams in the index, in index order. */
  function ImagePositions(objs: seq<IndexedObject>): (ps: seq<nat>)
    ensures forall i :: 0 <= i < |ps| ==> ps[i] < |objs| && IsImage(objs[ps[i]])
    ensures forall i, j :: 0 <= i < j < |ps| ==> ps[i] < ps[j]
  {
    if objs == [] then []
    else
      var last := |objs| - 1;
      var init := ImagePositions(objs[..last]);
      assert forall i :: 0 <= i < |init| ==> objs[..last][init[i]] == objs[init[i]];
      if IsImage(objs[last]) then init + [last] else init
  }

  /** Every image stream has its position listed. */
  lemma {:induction false} ImagePositionsComplete(objs: seq<IndexedObject>, k: nat)
    requires k < |objs| && IsImage(objs[k])
    ensures k in ImagePositions(objs)
  {
    var last := |objs| - 1;
    if k < last {
      assert objs[..last][k] == objs[k];
      ImagePositionsComplete(objs[..last], k);
    }
  }

  /** Records keep index order, one per image stream: record `i` is the
      classification of the `i`-th image stream of the index. */
  lemma {:induction false} CollectInOrder(objs: seq<IndexedObject>)
    requires Collect(objs).Ok?
    ensures var records := Collect(objs).value;
      var ps := ImagePositions(objs);
      && |records| == |ps|
      && forall i :: 0 <= i < |ps| ==> Classify(ps[i] + 1, objs[ps[i]]) == Ok(Some(records[i]))
  {
    if objs != [] {
      var last := |objs| - 1;
      var init := objs[..last];
      CollectInOrder(init);
      var ps := ImagePositions(init);
      forall i | 0 <= i < |ps|
        ensures init[ps[i]] == objs[ps[i]]
      {
      }
    }
  }
}
