/**
 yEnc part headers and the number attributes they are read from:
 `parseYencPartInfo` of src/services/yencManifest.service.ts.
 */
module YencParts {
  import opened Options

  /** JavaScript's `Number` of a header attribute that may be absent. */
  datatype Attribute = Missing | NotANumber | Num(value: int)
  {
    /** `Number.isFinite`, which rejects an absent attribute too. */
    predicate IsFinite() {
      Num?
    }

    /** The `??` operator. */
    function Or(other: Attribute): Attribute {
      if Missing? then other else this
    }
  }

  /** The attributes of the =ybegin, =ypart and =yend lines that matter here. */
  datatype Header = Header(beginSize: Attribute, partBegin: Attribute, partEnd: Attribute, endSize: Attribute)

  datatype PartInfo = PartInfo(fileSize: Option<int>, partOffset: int, partSize: int)
  {
    /** Position `p` of the file, counted from 1 as yEnc does, is in the part. */
    predicate HasPosition(p: int) {
      partOffset < p <= partOffset + partSize
    }
  }

  /** The =ypart line names a range of positions. */
  predicate HasPartLine(h: Header) {
    h.partBegin.IsFinite() && h.partEnd.IsFinite() && h.partBegin.value <= h.partEnd.value
  }

  /** The size the lines announce for the file: =ybegin's, or =yend's when =ybegin names none. */
  predicate Announces(h: Header, size: int) {
    size > 0 && (h.beginSize == Num(size) || (h.beginSize.Missing? && h.endSize == Num(size)))
  }

  function ParsePartInfo(h: Header): (r: Option<PartInfo>)
    ensures r.Some? ==> r.value.partSize > 0
  {
    var fileSize := h.beginSize.Or(h.endSize);
    if h.partBegin.IsFinite() && h.partEnd.IsFinite() && h.partEnd.value >= h.partBegin.value then
      Some(PartInfo(
        if fileSize.IsFinite() && fileSize.value > 0 then Some(fileSize.value) else None,
        h.partBegin.value - 1,
        h.partEnd.value - h.partBegin.value + 1))
    else if fileSize.IsFinite() && fileSize.value > 0 && h.endSize.IsFinite() && h.endSize.value > 0 then
      Some(PartInfo(Some(fileSize.value), 0, h.endSize.value))
    else
      None
  }

  /**
   A part line decides which positions the part has. Without one the header stands for
   a file in one part, and needs both an announced size and a size on the =yend line.
   */
  lemma PartInfoMeans(h: Header)
    ensures var r := ParsePartInfo(h);
      && (HasPartLine(h) ==>
            r.Some? && forall p: int :: r.value.HasPosition(p) <==> h.partBegin.value <= p <= h.partEnd.value)
      && (!HasPartLine(h) ==>
            (r.Some? <==> h.endSize.IsFinite() && h.endSize.value > 0 && exists size :: Announces(h, size)))
      && (!HasPartLine(h) && r.Some? ==> forall p: int :: r.value.HasPosition(p) <==> 1 <= p <= h.endSize.value)
      && (r.Some? ==> forall size: int :: Announces(h, size) <==> r.value.fileSize == Some(size))
  {
    assert h.beginSize.Num? ==> (h.beginSize.value > 0 ==> Announces(h, h.beginSize.value));
    assert h.beginSize.Missing? && h.endSize.Num? && h.endSize.value > 0 ==> Announces(h, h.endSize.value);
  }
}
