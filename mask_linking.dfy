/** The pass over `imagesInDoc` that marks soft masks as alpha layers. For
    every PNG-kind record with an `SMask`, the first record whose reference
    equals it is marked `isAlphaLayer`, and the image's own alpha layer is
    set to the image itself. A mask reference that matches no record makes
    `find` return `undefined`, and setting a property on it throws. */
module MaskLinking {

  import opened Wrappers
  import opened Descriptors

  /** The records that take part in linking. */
  predicate NeedsMask(rec: ImageRecord)
    ensures NeedsMask(rec) ==> rec.kind != Jpg
  {
    rec.kind == Png && rec.smaskRef.Some?
  }

  /** `Array.prototype.find` by reference: the first index whose record has
      reference `ref`. */
  function FindByRef(s: seq<ImageRecord>, ref: Ref): (k: Option<nat>)
    ensures k.Some? ==>
      k.value < |s| && s[k.value].ref == ref && forall j :: 0 <= j < k.value ==> s[j].ref != ref
    ensures k.None? ==> forall j :: 0 <= j < |s| ==> s[j].ref != ref
  {
    if s == [] then None
    else if s[0].ref == ref then Some(0)
    else match FindByRef(s[1..], ref)
      case None => None
      case Some(k) => Some(k + 1)
  }

  /** Record `i` names a mask that no record has. */
  predicate Unresolved(s: seq<ImageRecord>, i: nat)
    requires i < |s|
  {
    NeedsMask(s[i]) && FindByRef(s, s[i].smaskRef.value).None?
  }

  /** Record `j` is the mask found for one of the first `n` records. */
  predicate IsMaskOfPrefix(s: seq<ImageRecord>, n: nat, j: nat)
  {
    exists i :: 0 <= i < n && i < |s| && NeedsMask(s[i]) && FindByRef(s, s[i].smaskRef.value) == Some(j)
  }

  /** The records after the first `n` iterations of the pass have run. */
  function LinkedUpTo(s: seq<ImageRecord>, n: nat): (t: seq<ImageRecord>)
    ensures |t| == |s|
  {
    seq(|s|, j requires 0 <= j < |s| =>
      s[j].(isAlphaLayer := s[j].isAlphaLayer || IsMaskOfPrefix(s, n, j),
            hasAlphaLayer := s[j].hasAlphaLayer || (j < n && NeedsMask(s[j]))))
  }

  /** The pass as a whole: the first record whose mask is missing aborts it,
      with the records before it already linked. */
  function Link(s: seq<ImageRecord>): (r: Result<seq<ImageRecord>, Error>)
    ensures r.Ok? ==> |r.value| == |s|
    ensures r.Err? ==> r.error.MissingMask?
  {
    if exists i :: 0 <= i < |s| && Unresolved(s, i) then
      var i := FirstUnresolved(s);
      Err(MissingMask(s[i].name, s[i].smaskRef.value))
    else Ok(LinkedUpTo(s, |s|))
  }

  function FirstUnresolved(s: seq<ImageRecord>): (i: nat)
    requires exists i :: 0 <= i < |s| && Unresolved(s, i)
    ensures i < |s| && Unresolved(s, i)
    ensures forall k :: 0 <= k < i ==> !Unresolved(s, k)
  {
    FirstUnresolvedFrom(s, 0)
  }

  function FirstUnresolvedFrom(s: seq<ImageRecord>, from: nat): (i: nat)
    requires from <= |s| && exists i :: from <= i < |s| && Unresolved(s, i)
    ensures from <= i < |s| && Unresolved(s, i)
    ensures forall k :: from <= k < i ==> !Unresolved(s, k)
    decreases |s| - from
  {
    if Unresolved(s, from) then from else FirstUnresolvedFrom(s, from + 1)
  }

  /** Records that agree on their references are searched alike. */
  lemma {:induction false} FindByRefSameRefs(s: seq<ImageRecord>, t: seq<ImageRecord>, ref: Ref)
    requires |s| == |t| && forall j :: 0 <= j < |s| ==> s[j].ref == t[j].ref
    ensures FindByRef(s, ref) == FindByRef(t, ref)
  {
    if s != [] && s[0].ref != ref {
      FindByRefSameRefs(s[1..], t[1..], ref);
    }
  }

  /** Linking changes only the two flags: references, kinds and mask
      references stay, so lookups on the partly linked array find the same
      records as on the original. */
  lemma LinkedKeepsRefs(s: seq<ImageRecord>, n: nat, ref: Ref)
    ensures forall j :: 0 <= j < |s| ==> LinkedUpTo(s, n)[j].ref == s[j].ref
    ensures FindByRef(LinkedUpTo(s, n), ref) == FindByRef(s, ref)
  {
    FindByRefSameRefs(LinkedUpTo(s, n), s, ref);
  }

  /** The `forEach` over `imagesInDoc`, updating records in place. */
  method LinkMasks(imagesInDoc: array<ImageRecord>) returns (r: Result<(), Error>)
    modifies imagesInDoc
    ensures r.Ok? <==> Link(old(imagesInDoc[..])).Ok?
    ensures r.Ok? ==> imagesInDoc[..] == Link(old(imagesInDoc[..])).value
    ensures r.Err? ==>
      r.error == Link(old(imagesInDoc[..])).error
      && imagesInDoc[..] == LinkedUpTo(old(imagesInDoc[..]), FirstUnresolved(old(imagesInDoc[..])))
  {
    ghost var s := imagesInDoc[..];
    var i := 0;
    while i < imagesInDoc.Length
      invariant i <= imagesInDoc.Length
      invariant imagesInDoc[..] == LinkedUpTo(s, i)
      invariant forall k :: 0 <= k < i ==> !Unresolved(s, k)
    {
      var image := imagesInDoc[i];
      assert image == s[i].(isAlphaLayer := image.isAlphaLayer, hasAlphaLayer := image.hasAlphaLayer);
      if image.kind == Png && image.smaskRef.Some? {
        var found := LinkImage(imagesInDoc, s, i);
        if !found {
          assert FirstUnresolved(s) == i;
          return Err(MissingMask(image.name, image.smaskRef.value));
        }
      } else {
        assert LinkedUpTo(s, i + 1) == LinkedUpTo(s, i) by { NoLinkStep(s, i); }
      }
      i := i + 1;
    }
    assert !exists k :: 0 <= k < |s| && Unresolved(s, k);
    r := Ok(());
  }

  /** The body of the pass for a PNG image with a mask reference: find the
      mask by reference, mark it, and link the image to itself. */
  method LinkImage(imagesInDoc: array<ImageRecord>, ghost s: seq<ImageRecord>, i: nat) returns (found: bool)
    requires i < |s| == imagesInDoc.Length && NeedsMask(s[i])
    requires imagesInDoc[..] == LinkedUpTo(s, i)
    modifies imagesInDoc
    ensures found <==> !Unresolved(s, i)
    ensures found ==> imagesInDoc[..] == LinkedUpTo(s, i + 1)
    ensures !found ==> imagesInDoc[..] == old(imagesInDoc[..])
  {
    var image := imagesInDoc[i];
    LinkedKeepsRefs(s, i, image.smaskRef.value);
    var smaskImg := FindByRef(imagesInDoc[..], image.smaskRef.value);
    if smaskImg.None? {
      return false;
    }
    var m := smaskImg.value;
    imagesInDoc[m] := imagesInDoc[m].(isAlphaLayer := true);
    imagesInDoc[i] := imagesInDoc[i].(hasAlphaLayer := true);
    LinkStep(s, i, m);
    found := true;
  }

  /** An iteration over a record that takes part marks its mask and itself. */
  lemma LinkStep(s: seq<ImageRecord>, i: nat, m: nat)
    requires i < |s| && NeedsMask(s[i]) && FindByRef(s, s[i].smaskRef.value) == Some(m)
    ensures m < |s|
    ensures LinkedUpTo(s, i + 1)
      == LinkedUpTo(s, i)[m := LinkedUpTo(s, i)[m].(isAlphaLayer := true)]
         [i := LinkedUpTo(s, i)[m := LinkedUpTo(s, i)[m].(isAlphaLayer := true)][i].(hasAlphaLayer := true)]
  {
    var a := LinkedUpTo(s, i);
    var b := a[m := a[m].(isAlphaLayer := true)];
    var c := b[i := b[i].(hasAlphaLayer := true)];
    var t := LinkedUpTo(s, i + 1);
    MaskOfPrefixStep(s, i, m);
    forall j | 0 <= j < |s|
      ensures t[j] == c[j]
    {
      if j != m && j != i {
        assert c[j] == a[j];
      }
    }
    assert t == c;
  }

  /** The iteration over record `i` adds exactly record `m` to the masks. */
  lemma MaskOfPrefixStep(s: seq<ImageRecord>, i: nat, m: nat)
    requires i < |s| && NeedsMask(s[i]) && FindByRef(s, s[i].smaskRef.value) == Some(m)
    ensures IsMaskOfPrefix(s, i + 1, m)
    ensures forall j :: 0 <= j < |s| && j != m ==> (IsMaskOfPrefix(s, i + 1, j) <==> IsMaskOfPrefix(s, i, j))
  {
    forall j | 0 <= j < |s| && j != m && IsMaskOfPrefix(s, i + 1, j)
      ensures IsMaskOfPrefix(s, i, j)
    {
      var w :| 0 <= w < i + 1 && w < |s| && NeedsMask(s[w]) && FindByRef(s, s[w].smaskRef.value) == Some(j);
      assert w != i;
    }
  }

  /** An iteration over a record that does not take part changes nothing. */
  lemma NoLinkStep(s: seq<ImageRecord>, i: nat)
    requires i < |s| && !NeedsMask(s[i])
    ensures LinkedUpTo(s, i + 1) == LinkedUpTo(s, i)
  {
    forall j | 0 <= j < |s|
      ensures IsMaskOfPrefix(s, i + 1, j) == IsMaskOfPrefix(s, i, j)
    {
    }
  }

  // What the pass guarantees once it completes.

  /** Every PNG-kind image with a mask reference is linked, and the record
      its mask reference names is marked as an alpha layer. */
  lemma {:induction false} LinkMarksEveryMask(s: seq<ImageRecord>, i: nat)
    requires Link(s).Ok? && i < |s| && NeedsMask(s[i])
    ensures Link(s).value[i].hasAlphaLayer
    ensures exists j :: 0 <= j < |s| && s[j].ref == s[i].smaskRef.value && Link(s).value[j].isAlphaLayer
  {
    var m := FindByRef(s, s[i].smaskRef.value);
    assert !Unresolved(s, i);
    assert IsMaskOfPrefix(s, |s|, m.value);
  }

  /** A record becomes an alpha layer only if some PNG-kind image names it
      as its mask, and only PNG-kind images with a mask reference become
      linked: JPEG records never get an alpha layer. Nothing else in any
      record changes. */
  lemma LinkChangesOnlyFlags(s: seq<ImageRecord>, j: nat)
    requires Link(s).Ok? && j < |s|
    ensures var t := Link(s).value;
      && t[j].(isAlphaLayer := s[j].isAlphaLayer, hasAlphaLayer := s[j].hasAlphaLayer) == s[j]
      && (t[j].isAlphaLayer && !s[j].isAlphaLayer ==>
            exists i :: 0 <= i < |s| && NeedsMask(s[i]) && s[i].smaskRef.value == s[j].ref)
      && (t[j].hasAlphaLayer != s[j].hasAlphaLayer ==> NeedsMask(s[j]))
      && (s[j].kind == Jpg ==> t[j].hasAlphaLayer == s[j].hasAlphaLayer)
  {
  }

  /** A mask reference that matches no record aborts the pass, naming the
      first such image; otherwise the pass succeeds. */
  lemma LinkFailsExactlyOnMissingMask(s: seq<ImageRecord>)
    ensures Link(s).Err? <==>
      exists i :: 0 <= i < |s| && NeedsMask(s[i]) && forall j :: 0 <= j < |s| ==> s[j].ref != s[i].smaskRef.value
    ensures Link(s).Err? ==>
      exists i :: 0 <= i < |s| && NeedsMask(s[i]) && Link(s).error == MissingMask(s[i].name, s[i].smaskRef.value)
  {
    if Link(s).Err? {
      var i := FirstUnresolved(s);
      assert Unresolved(s, i);
    } else {
      forall i | 0 <= i < |s| && NeedsMask(s[i])
        ensures exists j :: 0 <= j < |s| && s[j].ref == s[i].smaskRef.value
      {
        assert !Unresolved(s, i);
        var m := FindByRef(s, s[i].smaskRef.value).value;
        assert s[m].ref == s[i].smaskRef.value;
      }
    }
  }

  /** Running the pass again over its own result changes nothing. A
      documentation lemma: the program runs the pass once, and this shows
      its result is a fixed point of the linking rule. */
  lemma LinkIdempotent(s: seq<ImageRecord>)
    requires Link(s).Ok?
    ensures Link(Link(s).value) == Link(s)
  {
    var t := Link(s).value;
    forall i | 0 <= i < |t|
      ensures !Unresolved(t, i)
    {
      if NeedsMask(t[i]) {
        LinkedKeepsRefs(s, |s|, t[i].smaskRef.value);
        assert !Unresolved(s, i);
      }
    }
    forall j | 0 <= j < |t|
      ensures IsMaskOfPrefix(t, |t|, j) == IsMaskOfPrefix(s, |s|, j)
    {
      if IsMaskOfPrefix(t, |t|, j) {
        var i :| 0 <= i < |t| && NeedsMask(t[i]) && FindByRef(t, t[i].smaskRef.value) == Some(j);
        LinkedKeepsRefs(s, |s|, t[i].smaskRef.value);
        assert NeedsMask(s[i]) && FindByRef(s, s[i].smaskRef.value) == Some(j);
      }
      if IsMaskOfPrefix(s, |s|, j) {
        var i :| 0 <= i < |s| && NeedsMask(s[i]) && FindByRef(s, s[i].smaskRef.value) == Some(j);
        LinkedKeepsRefs(s, |s|, s[i].smaskRef.value);
        assert NeedsMask(t[i]) && FindByRef(t, t[i].smaskRef.value) == Some(j);
      }
    }
    assert LinkedUpTo(t, |t|) == t;
  }
}
