/** The report printed about every record after linking. Printing itself
    is left out; what matters to the run is that the report turns each
    record's colour space into text, and for a record without a
    `ColorSpace` that throws and ends the run. */
module Logging {

  import opened Wrappers
  import opened Descriptors

  /** The first record without a colour space, or `None` when every record
      has one. */
  function FirstMissingColorSpace(s: seq<ImageRecord>): (r: Option<nat>)
    ensures r.Some? ==>
      && r.value < |s| && s[r.value].colorSpace.None?
      && forall j :: 0 <= j < r.value ==> s[j].colorSpace.Some?
    ensures r.None? ==> forall j :: 0 <= j < |s| ==> s[j].colorSpace.Some?
  {
    if s == [] then None
    else if s[0].colorSpace.None? then Some(0)
    else match FirstMissingColorSpace(s[1..])
      case None => None
      case Some(i) => Some(i + 1)
  }

  /** The logging `forEach` over `imagesInDoc`: records are reported in
      array order, and the first one without a colour space stops it. */
  method LogImages(imagesInDoc: array<ImageRecord>) returns (missing: Option<nat>)
    ensures missing == FirstMissingColorSpace(imagesInDoc[..])
  {
    var i := 0;
    while i < imagesInDoc.Length
      invariant i <= imagesInDoc.Length
      invariant forall j :: 0 <= j < i ==> imagesInDoc[j].colorSpace.Some?
    {
      if imagesInDoc[i].colorSpace.None? {
        return Some(i);
      }
      i := i + 1;
    }
    return None;
  }
}
