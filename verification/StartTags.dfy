/**
 From the bytes of a start tag to the attribute list: the second pass over the tag fills a buffer that grows, names are
 looked up, and the list is stored. Values that are copied are the normalised ones, but for one family of text that is not
 UTF-8.
 */
module StartTags {
  import opened XmlCharTypes
  import opened Characters
  import opened ContentScanner
  import opened Content
  import opened AttributeValue
  import opened NormalizedValues
  import opened TagAttributes
  import opened AttributeLists

  const INIT_ATTS_SIZE := 16

  predicate InTag(s: seq<byte>, a: Attribute) {
    a.valuePtr <= a.valueEnd <= |s|
  }

  lemma AllInTag(enc: Encoding, s: seq<byte>)
    requires IsStartTag(enc, s)
    ensures forall a :: a in AttsOf(enc, s) ==> InTag(s, a)
  {
    hide AttsFrom, TypeOf, Scan, Whole, CleanUpTo;
    ProperFrom(enc, AfterLt, s, 1, InsideName, NoAttribute);
  }

  /** An attribute of the tag: its name and its raw value. `idOf` finds the record of a name. */
  function Specify(enc: Encoding, s: seq<byte>, idOf: Name -> AttributeId, a: Attribute): Specified
    requires InTag(s, a)
  {
    Specified(idOf(NameAt(enc, s, a.name)), s[a.valuePtr..a.valueEnd], a.normalized)
  }

  function SpecifyAll(enc: Encoding, s: seq<byte>, idOf: Name -> AttributeId, atts: seq<Attribute>): (r: seq<Specified>)
    requires forall a :: a in atts ==> InTag(s, a)
    ensures |r| == |atts| && forall k :: 0 <= k < |atts| ==> r[k] == Specify(enc, s, idOf, atts[k])
  {
    seq(|atts|, k requires 0 <= k < |atts| => Specify(enc, s, idOf, atts[k]))
  }

  function SpecifiedBy(enc: Encoding, s: seq<byte>, idOf: Name -> AttributeId): seq<Specified>
    requires IsStartTag(enc, s)
  {
    AllInTag(enc, s);
    SpecifyAll(enc, s, idOf, AttsOf(enc, s))
  }

  // ---------------------------------------------------------------- values

  /** From the bytes of an accepted tag to values: each attribute gets the value that normalisation asks for, exactly when no
      value that is copied into a tokenized attribute has a character of several bytes that ends in 0x20 before a space or
      the end. */
  lemma TagIsNormalised(v: Values, s: seq<byte>, idOf: Name -> AttributeId)
    requires IsStartTag(v.env.Enc(v.internal), s)
    ensures var atts := SpecifiedBy(v.env.Enc(v.internal), s, idOf);
            (forall a :: a in atts ==> v.Of(a) == v.Normalised(a)) <==>
            (forall a :: a in atts && a.normalized && !IsCdata(v.table, a.id) ==> !LosesSpace(a.raw))
  {
    hide IsStartTag, StoreValue, LosesSpace, IsCdata, AttsOf, NameAt;
    var enc := v.env.Enc(v.internal);
    var atts := SpecifiedBy(enc, s, idOf);
    forall a | a in atts && a.normalized ensures v.Of(a) == v.Normalised(a) <==> IsCdata(v.table, a.id) || !LosesSpace(a.raw) {
      var k :| 0 <= k < |atts| && atts[k] == a;
      FastPath(v.env, s, v.internal, v.open, AttsOf(enc, s)[k]);
    }
  }

  /** In UTF-8 this is always so. */
  lemma Utf8TagIsNormalised(v: Values, s: seq<byte>, idOf: Name -> AttributeId)
    requires IsStartTag(v.env.Enc(v.internal), s) && WellFormedText(s)
    ensures forall a :: a in SpecifiedBy(v.env.Enc(v.internal), s, idOf) ==> v.Of(a) == v.Normalised(a)
  {
    hide IsStartTag, StoreValue, LosesSpace, IsCdata, AttsOf, NameAt, WellFormedText;
    var enc := v.env.Enc(v.internal);
    var atts := SpecifiedBy(enc, s, idOf);
    AllInTag(enc, s);
    forall a | a in atts ensures !LosesSpace(a.raw) {
      var k :| 0 <= k < |atts| && atts[k] == a;
      var b := AttsOf(enc, s)[k];
      assert b in AttsOf(enc, s) && InTag(s, b);
      WellFormedEnds(s, b.valuePtr, b.valueEnd);
    }
    TagIsNormalised(v, s, idOf);
  }

  /** The value that section 3.3.3 of XML 1.0 asks for: with references and entities expanded and white space made spaces, and
      for a tokenized attribute stripped and squeezed. */
  function Standard(v: Values, a: Specified): ValueResult {
    var cdata := CdataOf(v.env, v.internal, a.raw, 0, v.open);
    if cdata.ValueError? || IsCdata(v.table, a.id) then cdata else Value(StripAndSqueeze(cdata.bytes))
  }

  lemma CharInPart(s: seq<byte>, j: nat, hi: nat)
    requires WellFormedText(s) && j < hi < |s| && s[hi] < 0x80
    ensures j + ByteLength(s[j]) <= hi && forall k :: j < k < j + ByteLength(s[j]) ==> 0x80 <= s[k] < 0xC0
  {
    hide ByteLength;
    assert !(j < hi < j + ByteLength(s[j]));
  }

  /** A part that ends before an ASCII character ends between characters. */
  lemma PartWellFormed(s: seq<byte>, lo: nat, hi: nat)
    requires WellFormedText(s) && lo <= hi < |s| && s[hi] < 0x80
    ensures WellFormedText(s[lo..hi])
  {
    hide ByteLength;
    var v := s[lo..hi];
    forall j | 0 <= j < |v|
      ensures j + ByteLength(v[j]) <= |v| && forall k :: j < k < j + ByteLength(v[j]) ==> 0x80 <= v[k] < 0xC0
    {
      CharInPart(s, lo + j, hi);
      assert v[j] == s[lo + j];
      assert forall k :: j < k < j + ByteLength(v[j]) ==> v[k] == s[lo + k];
    }
  }

  lemma RawIsWellFormed(enc: Encoding, s: seq<byte>, a: Attribute)
    requires IsStartTag(enc, s) && WellFormedText(s) && a in AttsOf(enc, s)
    ensures InTag(s, a) && WellFormedText(s[a.valuePtr..a.valueEnd])
  {
    hide AttsFrom, Scan, Whole, CleanUpTo, WellFormedText;
    ProperFrom(enc, AfterLt, s, 1, InsideName, NoAttribute);
    QuoteIsAscii(enc, s[a.valueEnd]);
    PartWellFormed(s, a.valuePtr, a.valueEnd);
  }

  lemma QuoteIsAscii(enc: Encoding, b: byte)
    requires TypeOf(enc, b) == Quot || TypeOf(enc, b) == Apos
    ensures b < 0x80
  {
  }

  /** From the bytes of a tag in UTF-8 to the values of the standard, whether they are copied or normalised. */
  lemma Utf8TagIsStandard(v: Values, s: seq<byte>, idOf: Name -> AttributeId)
    requires IsStartTag(v.env.Enc(v.internal), s) && WellFormedText(s) && WellFormedEntities(v.env)
    ensures forall a :: a in SpecifiedBy(v.env.Enc(v.internal), s, idOf) ==> v.Of(a) == Standard(v, a)
  {
    hide IsStartTag, StoreValue, CdataOf, LosesSpace, IsCdata, AttsOf, NameAt, WellFormedText, WellFormedEntities, ReadsDoubled, StripAndSqueeze;
    var enc := v.env.Enc(v.internal);
    var atts := SpecifiedBy(enc, s, idOf);
    Utf8TagIsNormalised(v, s, idOf);
    forall a | a in atts ensures v.Of(a) == Standard(v, a) {
      var k :| 0 <= k < |atts| && atts[k] == a;
      RawIsWellFormed(enc, s, AttsOf(enc, s)[k]);
      WellFormedNeverDoubles(v.env, v.internal, a.raw, 0, v.open);
      StoresCdata(v.env, v.internal, a.raw, v.open);
      StoresTokenized(v.env, v.internal, a.raw, v.open);
    }
  }

  // ---------------------------------------------------------------- the buffer

  datatype TagOutcome = NoMemory | Stored(result: Result)

  class Reader {
    /** The buffer for the attributes of a tag; it only grows. */
    var atts: array?<Attribute>
    var attsSize: nat

    constructor ()
      ensures Valid() && fresh(atts) && attsSize == INIT_ATTS_SIZE
    {
      attsSize := INIT_ATTS_SIZE;
      atts := new Attribute[INIT_ATTS_SIZE](_ => NoAttribute);
    }

    ghost predicate Valid()
      reads this
    {
      atts != null && atts.Length == attsSize
    }

    /** Finds the attributes of the tag. If they and the defaults do not fit, the buffer grows, and keeps what it holds; if
        they alone did not fit, the pass is repeated. `memory`: whether there is memory to grow. */
    method FindAttributes(enc: Encoding, s: seq<byte>, nDefaultAtts: nat, memory: bool) returns (n: nat, ok: bool)
      requires Valid() && IsStartTag(enc, s)
      modifies this, atts
      ensures n == |AttsOf(enc, s)| && (ok <==> memory || n + nDefaultAtts <= old(attsSize))
      ensures ok ==> Valid() && n + nDefaultAtts <= attsSize && atts[..n] == AttsOf(enc, s)
      ensures atts == old(atts) || atts == null || fresh(atts)
    {
      hide IsStartTag, AttsOf;
      n := GetAtts(enc, s, attsSize, atts);
      ok := true;
      if n + nDefaultAtts > attsSize {
        var oldAttsSize := attsSize;
        attsSize := n + nDefaultAtts + INIT_ATTS_SIZE;
        if !memory {
          atts := null;
          return n, false;
        }
        var held := atts[..];
        atts := new Attribute[attsSize](i => if 0 <= i < |held| then held[i] else NoAttribute);
        if n > oldAttsSize {
          var again := GetAtts(enc, s, n, atts);
        }
      }
    }

    /** storeAtts, from the bytes of the tag. */
    method StoreStartTag(lists: Attributes, elementType: ElementType, v: Values, s: seq<byte>, idOf: Name -> AttributeId,
                         bound: set<AttributeId>, memory: bool)
      returns (r: TagOutcome)
      requires Valid() && IsStartTag(v.env.Enc(v.internal), s)
      requires lists.Valid() && lists.stored == [] && lists.marked == {} && lists.Marks()
      requires elementType.Valid() && v.table == elementType.defaultAtts
      requires forall a :: a in SpecifiedBy(v.env.Enc(v.internal), s, idOf) ==> a.id in lists.ids
      requires forall d :: d in elementType.defaultAtts ==> d.id in lists.ids
      requires elementType.idAtt != null ==> elementType.idAtt in lists.ids
      modifies this, atts, lists`appAtts, lists`bindings, lists`nPrefixes, lists`stored, lists`marked, lists`idAttIndex,
               lists.ids`mark
      ensures r.NoMemory? ==> !memory && lists.appAtts == old(lists.appAtts)
      ensures r.Stored? ==>
                var atts := SpecifiedBy(v.env.Enc(v.internal), s, idOf);
                && (r.result == AllStored <==> UniqueNames(atts) && forall a :: a in atts ==> v.Of(a).Value?)
                && (r.result == AllStored ==>
                      lists.appAtts == ExpandAll(bound, Listed(SpecifiedEntries(v, atts) + DefaultEntries(v.table, NamesOf(atts)))))
    {
      hide IsStartTag, AttsOf, NameAt, Values.Of, UniqueNames, NamesOf, SpecifiedEntries, DefaultEntries, Listed;
      var enc := v.env.Enc(v.internal);
      AllInTag(enc, s);
      var n, ok := FindAttributes(enc, s, |elementType.defaultAtts|, memory);
      if !ok { return NoMemory; }
      var result := lists.StoreAtts(v, elementType, SpecifyAll(enc, s, idOf, atts[..n]), bound);
      r := Stored(result);
    }
  }
}
