/**
 The attribute list of an element: the attributes of the tag, checked for duplicates with a marker on each attribute name,
 then the declared defaults that were not specified. The markers also say which names are to be expanded, and they are
 clear again at the end.
 */
module AttributeLists {
  import opened XmlCharTypes
  import opened Content
  import opened AttributeValue
  import opened Options

  /** Without prefix, with a prefix, or a namespace declaration. */
  datatype NameKind = Plain | Prefixed | Xmlns

  class AttributeId {
    const name: Name
    const kind: NameKind
    /** 0, or 1 if the attribute is in the list, or 2 if its name must also be expanded. */
    var mark: int
    var maybeTokenized: bool

    constructor (name: Name, kind: NameKind)
      ensures this.name == name && this.kind == kind && mark == 0 && !maybeTokenized
    {
      this.name, this.kind := name, kind;
      mark, maybeTokenized := 0, false;
    }
  }

  datatype DefaultAttribute = DefaultAttribute(id: AttributeId, isCdata: bool, value: Option<seq<byte>>)

  // ---------------------------------------------------------------- declarations

  /** Only the first declaration of an attribute can have a default value. */
  ghost predicate FirstWins(table: seq<DefaultAttribute>) {
    forall j, k :: 0 <= j < k < |table| && table[j].id == table[k].id ==> table[k].value == None
  }

  /** The type of an attribute: that of its first declaration, or CDATA if there is none. */
  function IsCdata(table: seq<DefaultAttribute>, id: AttributeId): bool {
    if table == [] then true
    else if table[0].id == id then table[0].isCdata
    else IsCdata(table[1..], id)
  }

  class ElementType {
    var defaultAtts: seq<DefaultAttribute>
    var idAtt: AttributeId?

    constructor ()
      ensures defaultAtts == [] && idAtt == null
    {
      defaultAtts, idAtt := [], null;
    }

    /** The shortcut is right: an attribute that was never declared tokenized has no tokenized declaration. */
    ghost predicate Valid()
      reads this, (set d | d in defaultAtts :: d.id)`maybeTokenized
    {
      && FirstWins(defaultAtts)
      && forall d :: d in defaultAtts && !d.isCdata ==> d.id.maybeTokenized
    }

    /** defineAttribute. */
    method Define(attId: AttributeId, isCdata: bool, isId: bool, value: Option<seq<byte>>) returns (ok: bool)
      requires Valid()
      modifies this, attId`maybeTokenized
      ensures Valid()
      ensures forall id :: IsCdata(defaultAtts, id) ==
                           if id == attId && ok && !Declared(old(defaultAtts), attId) then isCdata else IsCdata(old(defaultAtts), id)
      ensures defaultAtts == old(defaultAtts) ||
              (ok && defaultAtts == old(defaultAtts) + [DefaultAttribute(attId, isCdata, value)] &&
               (Declared(old(defaultAtts), attId) ==> value == None && !isId))
      ensures ok && !Declared(old(defaultAtts), attId) ==> defaultAtts == old(defaultAtts) + [DefaultAttribute(attId, isCdata, value)]
    {
      if value.Some? || isId {
        var i := 0;
        while i < |defaultAtts|
          invariant 0 <= i <= |defaultAtts|
          invariant forall k :: 0 <= k < i ==> defaultAtts[k].id != attId
        {
          if defaultAtts[i].id == attId {
            return true;
          }
          i := i + 1;
        }
        if isId && idAtt == null && attId.kind != Xmlns { idAtt := attId; }
      }
      ok := *;
      if !ok { return; }
      forall id { IsCdataSnoc(defaultAtts, DefaultAttribute(attId, isCdata, value), id); }
      defaultAtts := defaultAtts + [DefaultAttribute(attId, isCdata, value)];
      if !isCdata { attId.maybeTokenized := true; }
    }

    /** The search of storeAtts for the declared type, with its shortcut. */
    method DeclaredType(attId: AttributeId) returns (isCdata: bool)
      requires Valid()
      ensures isCdata == IsCdata(defaultAtts, attId)
    {
      isCdata := true;
      if attId.maybeTokenized {
        var j := 0;
        assert defaultAtts[0..] == defaultAtts;
        while j < |defaultAtts|
          invariant 0 <= j <= |defaultAtts| && IsCdata(defaultAtts[j..], attId) == IsCdata(defaultAtts, attId)
        {
          assert defaultAtts[j..][0] == defaultAtts[j] && defaultAtts[j..][1..] == defaultAtts[j + 1..];
          if attId == defaultAtts[j].id { return defaultAtts[j].isCdata; }
          j := j + 1;
        }
      } else {
        NeverTokenized(defaultAtts, attId);
      }
    }
  }

  ghost predicate Declared(table: seq<DefaultAttribute>, id: AttributeId) {
    exists k :: 0 <= k < |table| && table[k].id == id
  }

  lemma {:induction false} IsCdataSnoc(table: seq<DefaultAttribute>, d: DefaultAttribute, id: AttributeId)
    ensures IsCdata(table + [d], id) == if id == d.id && !Declared(table, id) then d.isCdata else IsCdata(table, id)
    decreases |table|
  {
    if table == [] {
      assert table + [d] == [d] && [d][1..] == [];
    } else {
      assert (table + [d])[1..] == table[1..] + [d];
      IsCdataSnoc(table[1..], d, id);
      if Declared(table, id) && table[0].id != id {
        var k :| 0 <= k < |table| && table[k].id == id;
        assert table[1..][k - 1].id == id;
      }
      if Declared(table[1..], id) {
        var k :| 0 <= k < |table[1..]| && table[1..][k].id == id;
        assert table[k + 1].id == id;
      }
      assert table[0].id == id ==> Declared(table, id);
    }
  }

  lemma {:induction false} NeverTokenized(table: seq<DefaultAttribute>, id: AttributeId)
    requires forall d :: d in table && d.id == id ==> d.isCdata
    ensures IsCdata(table, id)
    decreases |table|
  {
    if table != [] {
      assert table[0] in table;
      NeverTokenized(table[1..], id);
    }
  }

  // ---------------------------------------------------------------- the list that is wanted

  /** An attribute of the tag: its raw value, and whether the tokenizer found that it can be copied. */
  datatype Specified = Specified(id: AttributeId, raw: seq<byte>, normalized: bool)

  /** A name and its value; `expanded`: the name was replaced by its expanded form. */
  datatype Entry = Entry(id: AttributeId, value: seq<byte>, expanded: bool)

  /** What attribute values depend on. */
  datatype Values = Values(env: Env, internal: bool, open: set<Name>, table: seq<DefaultAttribute>)
  {
    /** The value of an attribute, normalised as its declared type asks for. */
    function Normalised(a: Specified): ValueResult {
      StoreValue(env, internal, IsCdata(table, a.id), a.raw, open)
    }

    /** The value it gets: a copy, if the tokenizer found that this will do. */
    function Of(a: Specified): ValueResult {
      if a.normalized then Value(a.raw) else Normalised(a)
    }
  }

  ghost function IdsOf(es: seq<Entry>): set<AttributeId> {
    set e | e in es :: e.id
  }

  function SpecifiedEntries(v: Values, atts: seq<Specified>): seq<Entry> {
    if atts == [] then []
    else
      var n := |atts| - 1;
      var r := v.Of(atts[n]);
      SpecifiedEntries(v, atts[..n]) + [Entry(atts[n].id, if r.Value? then r.bytes else [], false)]
  }

  /** The declared defaults of attributes that are not among `ids`. */
  ghost function DefaultEntries(table: seq<DefaultAttribute>, ids: set<AttributeId>): seq<Entry> {
    if table == [] then []
    else
      var n := |table| - 1;
      var d := table[n];
      DefaultEntries(table[..n], ids) + (if d.id !in ids && d.value.Some? then [Entry(d.id, d.value.value, false)] else [])
  }

  /** Namespace declarations do not appear in the list. */
  function Listed(es: seq<Entry>): seq<Entry> {
    if es == [] then []
    else
      var n := |es| - 1;
      Listed(es[..n]) + (if es[n].id.kind == Xmlns then [] else [es[n]])
  }

  function Declarations(es: seq<Entry>): seq<Entry> {
    if es == [] then []
    else
      var n := |es| - 1;
      Declarations(es[..n]) + (if es[n].id.kind == Xmlns then [es[n]] else [])
  }

  ghost predicate Distinct(es: seq<Entry>) {
    forall j, k :: 0 <= j < k < |es| ==> es[j].id != es[k].id
  }

  lemma ListedSnoc(es: seq<Entry>, e: Entry)
    ensures Listed(es + [e]) == Listed(es) + (if e.id.kind == Xmlns then [] else [e])
    ensures Declarations(es + [e]) == Declarations(es) + (if e.id.kind == Xmlns then [e] else [])
    ensures IdsOf(es + [e]) == IdsOf(es) + {e.id}
    ensures Distinct(es) && e.id !in IdsOf(es) ==> Distinct(es + [e])
  {
    assert (es + [e])[..|es|] == es;
  }

  lemma SpecifiedSnoc(v: Values, atts: seq<Specified>, a: Specified)
    ensures var r := v.Of(a);
            SpecifiedEntries(v, atts + [a]) == SpecifiedEntries(v, atts) + [Entry(a.id, if r.Value? then r.bytes else [], false)]
  {
    assert (atts + [a])[..|atts|] == atts;
  }

  lemma DefaultSnoc(table: seq<DefaultAttribute>, d: DefaultAttribute, ids: set<AttributeId>)
    ensures DefaultEntries(table + [d], ids) ==
            DefaultEntries(table, ids) + (if d.id !in ids && d.value.Some? then [Entry(d.id, d.value.value, false)] else [])
  {
    assert (table + [d])[..|table|] == table;
  }

  // ---------------------------------------------------------------- storeAtts

  datatype Result = AllStored | Duplicate(at: nat) | ValueFailed(at: nat, code: ErrorCode)

  /** The mark of an attribute that is in the list. */
  function MarkOf(id: AttributeId): int {
    if id.kind == Prefixed then 2 else 1
  }

  class Attributes {
    var appAtts: seq<Entry>
    /** The namespace declarations, which have become bindings of the element. */
    var bindings: seq<Entry>
    var nPrefixes: nat
    /** Where the ID attribute is in the list, counting names and values, or -1. */
    var idAttIndex: int
    /** All attribute names, those that are marked, and the entries stored so far. */
    ghost var ids: set<AttributeId>
    ghost var marked: set<AttributeId>
    ghost var stored: seq<Entry>

    constructor (ghost ids: set<AttributeId>)
      ensures this.ids == ids && appAtts == [] && bindings == [] && stored == [] && marked == {} && nPrefixes == 0 && idAttIndex == -1
    {
      idAttIndex := -1;
      this.ids, appAtts, bindings, nPrefixes, stored, marked := ids, [], [], 0, [], {};
    }

    ghost predicate Marks()
      reads this`ids, this`marked, ids`mark
    {
      forall id :: id in ids ==> id.mark == if id in marked then MarkOf(id) else 0
    }

    ghost predicate Valid()
      reads this
    {
      && appAtts == Listed(stored) && bindings == Declarations(stored) && Distinct(stored)
      && (forall e :: e in stored ==> e.id in ids && !e.expanded)
      && nPrefixes == CountPrefixed(appAtts)
      && marked <= IdsOf(stored) && (forall e :: e in stored && e.id.kind != Xmlns ==> e.id in marked)
    }

    /** An entry goes to the list or to the bindings, as its kind says; names with a prefix are counted. */
    method Append(e: Entry, ghost mark: bool)
      requires Valid() && e.id in ids && e.id !in IdsOf(stored) && !e.expanded && (e.id.kind != Xmlns ==> mark)
      modifies this`appAtts, this`bindings, this`nPrefixes, this`stored, this`marked
      ensures Valid() && stored == old(stored) + [e] && marked == old(marked) + (if mark then {e.id} else {})
    {
      hide Listed, Declarations, CountPrefixed, Distinct, IdsOf;
      ListedSnoc(stored, e);
      CountSnoc(appAtts, e);
      if e.id.kind == Xmlns {
        bindings := bindings + [e];
      } else {
        appAtts := appAtts + [e];
        if e.id.kind == Prefixed { nPrefixes := nPrefixes + 1; }
      }
      assert Listed(stored) + [] == Listed(stored) && Declarations(stored) + [] == Declarations(stored);
      stored := stored + [e];
      marked := marked + (if mark then {e.id} else {});
    }

    /** The value of one attribute: copied, or normalised as the declaration asks for. */
    method ValueFor(v: Values, elementType: ElementType, a: Specified) returns (r: ValueResult)
      requires elementType.Valid() && v.table == elementType.defaultAtts
      ensures r == v.Of(a)
    {
      if !a.normalized {
        var isCdata := elementType.DeclaredType(a.id);
        r := StoreValue(v.env, v.internal, isCdata, a.raw, v.open);
      } else {
        r := Value(a.raw);
      }
    }

    /** One attribute of the tag that is not a duplicate. */
    method AddOne(v: Values, elementType: ElementType, a: Specified) returns (r: ValueResult)
      requires Valid() && Marks() && a.id in ids && a.id !in IdsOf(stored)
      requires elementType.Valid() && v.table == elementType.defaultAtts
      modifies this`appAtts, this`bindings, this`nPrefixes, this`stored, this`marked, a.id`mark
      ensures Valid() && r == v.Of(a)
      ensures r.Value? ==> stored == old(stored) + [Entry(a.id, r.bytes, false)] && marked == old(marked) + {a.id} && Marks()
      ensures !r.Value? ==> stored == old(stored) && marked == old(marked) && a.id.mark == 1
    {
      hide Valid, Values.Of;
      a.id.mark := 1;
      r := ValueFor(v, elementType, a);
      if r.ValueError? { return; }
      Append(Entry(a.id, r.bytes, false), true);
      if a.id.kind == Prefixed { a.id.mark := 2; }
    }

    /** The loop over the attributes of the tag: it stops at the first that repeats a name or whose value is in error. */
    method AddSpecified(v: Values, elementType: ElementType, atts: seq<Specified>) returns (r: Result)
      requires Valid() && stored == [] && marked == {} && Marks() && elementType.Valid() && v.table == elementType.defaultAtts
      requires forall a :: a in atts ==> a.id in ids
      modifies this`appAtts, this`bindings, this`nPrefixes, this`stored, this`marked, ids`mark
      ensures Valid() && (!r.ValueFailed? ==> Marks() && marked == IdsOf(stored))
      ensures r.ValueFailed? ==> r.at < |atts| && forall id :: id in ids ==> (id.mark != 0 <==> id in IdsOf(stored) || id == atts[r.at].id)
      ensures var n := if r.AllStored? then |atts| else r.at;
              n <= |atts| && stored == SpecifiedEntries(v, atts[..n]) && forall k :: 0 <= k < n ==> v.Of(atts[k]).Value?
      ensures r.Duplicate? ==> r.at < |atts| && exists k :: 0 <= k < r.at && atts[k].id == atts[r.at].id
      ensures r.ValueFailed? ==> r.at < |atts| && v.Of(atts[r.at]) == ValueError(r.code) && forall k :: 0 <= k < r.at ==> atts[k].id != atts[r.at].id
    {
      hide Values.Of, IsCdata, Listed, Declarations, CountPrefixed, StoreValue, SpecifiedEntries;
      var i := 0;
      NothingSpecified(v);
      assert atts[..0] == [];
      while i < |atts|
        invariant 0 <= i <= |atts| && Valid() && Marks() && marked == IdsOf(stored)
        invariant elementType.Valid() && v.table == elementType.defaultAtts
        invariant stored == SpecifiedEntries(v, atts[..i])
        invariant forall k :: 0 <= k < i ==> v.Of(atts[k]).Value?
      {
        SpecifiedIds(v, atts[..i]);
        var a := atts[i];
        if a.id.mark != 0 {
          FoundAmong(stored, a.id);
          return Duplicate(i);
        }
        var value := AddOne(v, elementType, a);
        if value.ValueError? { return ValueFailed(i, value.code); }
        SpecifiedSnoc(v, atts[..i], a);
        assert atts[..i + 1] == atts[..i] + [a];
        i := i + 1;
      }
      assert atts[..|atts|] == atts;
      r := AllStored;
    }

    /** One declared default. A namespace declaration is not marked, and no later one has the same name and a value. */
    method AddDefault(d: DefaultAttribute)
      requires Valid() && Marks() && d.id in ids && (d.id in IdsOf(stored) ==> d.id in marked || d.value == None)
      modifies this`appAtts, this`bindings, this`nPrefixes, this`stored, this`marked, d.id`mark
      ensures Valid() && Marks() && old(marked) <= marked
      ensures stored == old(stored) + if d.id !in old(marked) && d.value.Some? then [Entry(d.id, d.value.value, false)] else []
    {
      hide Valid;
      MarkedIsStored();
      if d.id.mark == 0 && d.value.Some? {
        Append(Entry(d.id, d.value.value, false), d.id.kind != Xmlns);
        if d.id.kind == Prefixed { d.id.mark := 2; } else if d.id.kind == Plain { d.id.mark := 1; }
      }
    }

    lemma MarkedIsStored()
      requires Valid()
      ensures marked <= IdsOf(stored)
    {
    }

    /** The loop over the declared defaults. */
    method AddDefaults(elementType: ElementType, ghost specified: set<AttributeId>)
      requires Valid() && Marks() && marked == IdsOf(stored) == specified && FirstWins(elementType.defaultAtts)
      requires forall d :: d in elementType.defaultAtts ==> d.id in ids
      modifies this`appAtts, this`bindings, this`nPrefixes, this`stored, this`marked, ids`mark
      ensures Valid() && Marks() && specified <= marked
      ensures stored == old(stored) + DefaultEntries(elementType.defaultAtts, specified)
    {
      hide Valid, Marks, DefaultEntries;
      ghost var base, table := stored, elementType.defaultAtts;
      var j := 0;
      assert table[..0] == [];
      NoDefaults(specified);
      assert base + [] == base;
      while j < |elementType.defaultAtts|
        invariant 0 <= j <= |table| && elementType.defaultAtts == table && Valid() && Marks() && specified <= marked
        invariant stored == base + DefaultEntries(table[..j], specified)
      {
        var d := elementType.defaultAtts[j];
        DefaultSnoc(table[..j], d, specified);
        assert table[..j + 1] == table[..j] + [d];
        DefaultIds(table[..j], specified);
        StoredBefore(base, table, j, specified);
        MarkedIsStored();
        ghost var before := stored;
        AddDefault(d);
        assert base + (DefaultEntries(table[..j], specified) + (if d.id !in specified && d.value.Some? then [Entry(d.id, d.value.value, false)] else []))
               == before + (if d.id !in specified && d.value.Some? then [Entry(d.id, d.value.value, false)] else []);
        j := j + 1;
      }
      assert table[..|table|] == table;
    }

    /** Looks for the ID attribute. If it is marked because it is a namespace declaration, the index stays as it was. */
    method FindIdAttribute(idAtt: AttributeId?)
      requires Valid() && Marks() && marked == IdsOf(stored) && (idAtt != null ==> idAtt in ids)
      modifies this`idAttIndex
      ensures Valid() && Marks() && IdFound(appAtts, idAtt, IdsOf(stored), old(idAttIndex), idAttIndex)
    {
      hide Listed, Declarations, CountPrefixed;
      ListedFacts(stored);
      if idAtt != null && idAtt.mark != 0 {
        var i := 0;
        while i < |appAtts| && appAtts[i].id != idAtt
          invariant 0 <= i <= |appAtts| && forall k :: 0 <= k < i ==> appAtts[k].id != idAtt
        {
          i := i + 1;
        }
        if i < |appAtts| { idAttIndex := 2 * i; } else { assert idAtt.kind != Xmlns ==> forall e :: e in stored ==> e.id != idAtt; }
      } else {
        idAttIndex := -1;
      }
    }

    /** The names with a mark are those of entries from the `i`th on, and of declarations. */
    ghost predicate Left(all: seq<Entry>, i: nat)
      requires i <= |all|
      reads this`ids, this`marked, ids`mark
    {
      forall id :: id in ids ==> id.mark == if id in marked && id !in IdsOf(all[..i]) then MarkOf(id) else 0
    }

    /** Expands the names whose prefix is bound, and clears marks on the way; stops at the last prefixed name. The end of the list
        is never reached, because the number of prefixed names is exact. */
    method ExpandNames(bound: set<AttributeId>) returns (i: nat)
      requires Valid() && Marks() && nPrefixes > 0
      modifies this`appAtts, this`nPrefixes, ids`mark
      ensures i < |old(appAtts)| && Left(old(appAtts), i + 1) && appAtts == ExpandAll(bound, old(appAtts))
      ensures forall k :: i <= k < |appAtts| && appAtts[k].expanded ==> k == i
    {
      hide CountPrefixed, IdsOf, Listed, Declarations;
      ghost var all, total := appAtts, nPrefixes;
      ListedFacts(stored);
      i := 0;
      Beginning(all);
      SomeLeft(all, 0);
      while true
        invariant 0 <= i < |all| == |appAtts| && Left(all, i)
        invariant 0 < nPrefixes && nPrefixes + CountPrefixed(all[..i]) == total
        invariant forall k :: 0 <= k < |all| ==> appAtts[k] == if k < i then WithName(bound, all[k]) else all[k]
        decreases |all| - i
      {
        CountSnoc(all[..i], all[i]);
        ListedSnoc(all[..i], all[i]);
        assert all[..i + 1] == all[..i] + [all[i]];
        NotBefore(all, i);
        var prefixed := appAtts[i].id.mark == 2;
        appAtts[i].id.mark := 0;
        if prefixed {
          if appAtts[i].id in bound { appAtts := appAtts[i := appAtts[i].(expanded := true)]; }
          nPrefixes := nPrefixes - 1;
          if nPrefixes == 0 {
            NoneLeft(all, i + 1);
            return;
          }
        }
        SomeLeft(all, i + 1);
        i := i + 1;
      }
    }

    /** Marks remain only on marked names that are not among the first `i` entries. */
    ghost predicate Cleared(all: seq<Entry>, i: nat)
      requires i <= |all|
      reads this`ids, this`marked, ids`mark
    {
      forall id :: id in ids && id.mark != 0 ==> id in marked && id !in IdsOf(all[..i])
    }

    /** The loop that clears the marks of the rest of the list. An expanded name has no mark in front of it. */
    method ClearRest(from: nat, ghost all: seq<Entry>)
      requires from <= |all| == |appAtts| && Cleared(all, from) && forall k :: 0 <= k < |all| ==> appAtts[k].id == all[k].id
      requires forall k :: 0 <= k < |all| ==> all[k].id in ids && (from <= k && appAtts[k].expanded ==> all[k].id.mark == 0)
      modifies ids`mark
      ensures Cleared(all, |all|)
    {
      hide IdsOf;
      var i := from;
      while i < |appAtts|
        invariant from <= i <= |all| && Cleared(all, i)
        invariant forall k :: from <= k < |all| && appAtts[k].expanded ==> all[k].id.mark == 0
      {
        ListedSnoc(all[..i], all[i]);
        assert all[..i + 1] == all[..i] + [all[i]];
        if !appAtts[i].expanded { appAtts[i].id.mark := 0; }
        i := i + 1;
      }
    }

    /** The loop over the bindings. */
    method ClearBindings()
      requires (forall e :: e in bindings ==> e.id in ids)
      requires forall id :: id in ids && id.mark != 0 ==> id in IdsOf(bindings)
      modifies ids`mark
      ensures forall id :: id in ids ==> id.mark == 0
    {
      var i := 0;
      while i < |bindings|
        invariant 0 <= i <= |bindings|
        invariant forall id :: id in ids && id.mark != 0 ==> id in IdsOf(bindings[i..])
      {
        assert bindings[i..] == [bindings[i]] + bindings[i + 1..];
        bindings[i].id.mark := 0;
        i := i + 1;
      }
    }

    lemma LeftIsCleared(all: seq<Entry>, i: nat)
      requires i < |all| && Left(all, i + 1)
      ensures Cleared(all, i) && (all[i].id in ids ==> all[i].id.mark == 0)
    {
      assert all[..i + 1] == all[..i] + [all[i]];
    }

    lemma MarksCleared(all: seq<Entry>)
      requires Marks()
      ensures Cleared(all, 0)
    {
      assert all[..0] == [];
    }

    /** The last part of storeAtts: names are expanded and all marks are cleared. */
    method Finish(bound: set<AttributeId>)
      requires Valid() && Marks()
      modifies this`appAtts, this`nPrefixes, ids`mark
      ensures appAtts == ExpandAll(bound, old(appAtts)) && forall id :: id in ids ==> id.mark == 0
    {
      hide CountPrefixed, IdsOf, Listed, Declarations, Cleared;
      ghost var all := appAtts;
      var i := 0;
      Beginning(all);
      ListedFacts(stored);
      AllIds(stored);
      if nPrefixes > 0 {
        i := ExpandNames(bound);
        LeftIsCleared(all, i);
      } else {
        MarksCleared(all);
        NoneLeft(all, 0);
      }
      ClearRest(i, all);
      OnlyDeclarations(all);
      ClearBindings();
    }

    lemma OnlyDeclarations(all: seq<Entry>)
      requires Cleared(all, |all|) && all == Listed(stored) && bindings == Declarations(stored) && marked <= IdsOf(stored)
      requires IdsOf(stored) == IdsOf(Listed(stored)) + IdsOf(Declarations(stored))
      ensures forall id :: id in ids && id.mark != 0 ==> id in IdsOf(bindings)
    {
      hide IdsOf;
      assert all[..|all|] == all;
    }

    /** storeAtts: succeeds exactly when no two attributes of the tag have the same name and all values are in order. The
        list is then that of the tag followed by the defaults that were not specified. After an error the names that had
        been seen are still marked, with that of the value in error: no name is marked exactly if all attributes were stored.
        `bound`: the attributes whose prefix has a binding once the declarations of the tag are in force. */
    method StoreAtts(v: Values, elementType: ElementType, atts: seq<Specified>, bound: set<AttributeId>) returns (r: Result)
      requires Valid() && stored == [] && marked == {} && Marks() && elementType.Valid() && v.table == elementType.defaultAtts
      requires (forall a :: a in atts ==> a.id in ids) && forall d :: d in elementType.defaultAtts ==> d.id in ids
      requires elementType.idAtt != null ==> elementType.idAtt in ids
      modifies this`appAtts, this`bindings, this`nPrefixes, this`stored, this`marked, this`idAttIndex, ids`mark
      ensures if r == AllStored then IdFound(appAtts, elementType.idAtt, NamesOf(atts), old(idAttIndex), idAttIndex)
              else idAttIndex == old(idAttIndex)
      ensures r == AllStored <==> UniqueNames(atts) && forall k :: 0 <= k < |atts| ==> v.Of(atts[k]).Value?
      ensures r == AllStored ==>
                var all := SpecifiedEntries(v, atts) + DefaultEntries(v.table, NamesOf(atts));
                appAtts == ExpandAll(bound, Listed(all)) && bindings == Declarations(all)
      ensures r == AllStored <==> forall id :: id in ids ==> id.mark == 0
      ensures r.Duplicate? ==> r.at < |atts| && UniqueNames(atts[..r.at]) && !UniqueNames(atts[..r.at + 1])
      ensures r.Duplicate? ==> forall id :: id in ids ==> (id.mark != 0 <==> id in NamesOf(atts[..r.at]))
      ensures r.ValueFailed? ==> r.at < |atts| && UniqueNames(atts[..r.at + 1]) && v.Of(atts[r.at]) == ValueError(r.code)
      ensures r.ValueFailed? ==> forall id :: id in ids ==> (id.mark != 0 <==> id in NamesOf(atts[..r.at + 1]))
    {
      hide Valid, Values.Of, Listed, Declarations, DefaultEntries, SpecifiedEntries;
      r := AddSpecified(v, elementType, atts);
      ghost var n := if r.AllStored? then |atts| else r.at;
      assert atts[..|atts|] == atts;
      StoredDistinct();
      SpecifiedNames(v, atts[..n]);
      if !r.AllStored? {
        Repeated(atts, n);
        NamesSnoc(atts, n);
        return;
      }
      StoredLists();
      FindIdAttribute(elementType.idAtt);
      ghost var list := appAtts;
      ListedPrefix(stored, DefaultEntries(v.table, NamesOf(atts)));
      AddDefaults(elementType, NamesOf(atts));
      StoredLists();
      Finish(bound);
      SameIds(bound, list, Listed(stored), elementType.idAtt, NamesOf(atts), old(idAttIndex), idAttIndex);
    }

    lemma StoredDistinct()
      requires Valid()
      ensures Distinct(stored)
    {
    }

    lemma StoredLists()
      requires Valid()
      ensures appAtts == Listed(stored) && bindings == Declarations(stored)
    {
    }
  }

  /** The index of the ID attribute of the tag, which is not there, or in the list, or a namespace declaration. */
  ghost predicate IdFound(list: seq<Entry>, idAtt: AttributeId?, specified: set<AttributeId>, before: int, index: int) {
    if idAtt == null || idAtt !in specified then index == -1
    else if idAtt.kind == Xmlns then index == before
    else index >= 0 && index % 2 == 0 && index / 2 < |list| && list[index / 2].id == idAtt
  }

  lemma SameIds(bound: set<AttributeId>, list: seq<Entry>, all: seq<Entry>, idAtt: AttributeId?, specified: set<AttributeId>,
                before: int, index: int)
    requires IdFound(list, idAtt, specified, before, index) && list <= all
    ensures IdFound(ExpandAll(bound, all), idAtt, specified, before, index)
  {
  }

  lemma {:induction false} ListedPrefix(a: seq<Entry>, b: seq<Entry>)
    ensures Listed(a) <= Listed(a + b)
    decreases |b|
  {
    if b == [] {
      assert a + b == a;
    } else {
      var n := |b| - 1;
      assert a + b == (a + b[..n]) + [b[n]];
      ListedPrefix(a, b[..n]);
      ListedSnoc(a + b[..n], b[n]);
    }
  }

  ghost predicate UniqueNames(atts: seq<Specified>) {
    forall j, k :: 0 <= j < k < |atts| ==> atts[j].id != atts[k].id
  }

  ghost function NamesOf(atts: seq<Specified>): set<AttributeId> {
    set a | a in atts :: a.id
  }

  lemma SpecifiedNames(v: Values, atts: seq<Specified>)
    ensures IdsOf(SpecifiedEntries(v, atts)) == NamesOf(atts)
    ensures Distinct(SpecifiedEntries(v, atts)) <==> UniqueNames(atts)
  {
    hide SpecifiedEntries, Values.Of;
    SpecifiedIds(v, atts);
    var es := SpecifiedEntries(v, atts);
    forall id | id in NamesOf(atts) ensures id in IdsOf(es) {
      var k :| 0 <= k < |atts| && atts[k].id == id;
      assert es[k] in es;
    }
    forall id | id in IdsOf(es) ensures id in NamesOf(atts) {
      var k :| 0 <= k < |es| && es[k].id == id;
      assert atts[k] in atts;
    }
  }

  lemma Repeated(atts: seq<Specified>, n: nat)
    requires n < |atts| && UniqueNames(atts[..n])
    ensures UniqueNames(atts[..n + 1]) <==> forall k :: 0 <= k < n ==> atts[k].id != atts[n].id
    ensures UniqueNames(atts) ==> UniqueNames(atts[..n + 1])
  {
    var s := atts[..n + 1];
    assert forall k :: 0 <= k < n ==> s[k] == atts[..n][k] == atts[k];
    assert s[n] == atts[n];
    if UniqueNames(s) {
      assert forall k :: 0 <= k < n ==> s[k].id != s[n].id;
    }
  }

  lemma NamesSnoc(atts: seq<Specified>, n: nat)
    requires n < |atts|
    ensures NamesOf(atts[..n + 1]) == NamesOf(atts[..n]) + {atts[n].id}
    ensures forall k :: 0 <= k < n ==> atts[k].id in NamesOf(atts[..n])
  {
    assert atts[..n + 1] == atts[..n] + [atts[n]];
    assert forall k :: 0 <= k < n ==> atts[k] == atts[..n][k];
  }

  lemma NoIds()
    ensures IdsOf([]) == {} && Listed([]) == [] && Declarations([]) == []
  {
  }

  /** Every stored entry is in the list or among the declarations. */
  lemma {:induction false} AllIds(es: seq<Entry>)
    ensures IdsOf(es) == IdsOf(Listed(es)) + IdsOf(Declarations(es))
    decreases |es|
  {
    hide IdsOf, Listed, Declarations, Distinct;
    if es == [] {
      NoIds();
    } else {
      var n := |es| - 1;
      var front, e := es[..n], es[n];
      assert es == front + [e];
      AllIds(front);
      ListedSnoc(front, e);
      ListedSnoc(Listed(front), e);
      ListedSnoc(Declarations(front), e);
      assert Listed(front) + [] == Listed(front) && Declarations(front) + [] == Declarations(front);
    }
  }

  function WithName(bound: set<AttributeId>, e: Entry): Entry {
    e.(expanded := e.id.kind == Prefixed && e.id in bound)
  }

  function ExpandAll(bound: set<AttributeId>, es: seq<Entry>): seq<Entry> {
    seq(|es|, i requires 0 <= i < |es| => WithName(bound, es[i]))
  }

  lemma Beginning(all: seq<Entry>)
    ensures all[..0] == [] && IdsOf([]) == {} && CountPrefixed([]) == 0
  {
  }

  lemma {:induction false} CountGrows(all: seq<Entry>, i: nat)
    requires i <= |all|
    ensures CountPrefixed(all[..i]) <= CountPrefixed(all)
    ensures CountPrefixed(all[..i]) == CountPrefixed(all) ==> forall k :: i <= k < |all| ==> all[k].id.kind != Prefixed
    decreases |all|
  {
    if i < |all| {
      var n := |all| - 1;
      assert all[..n][..i] == all[..i];
      CountGrows(all[..n], i);
    } else {
      assert all[..i] == all;
    }
  }

  lemma SomeLeft(all: seq<Entry>, i: nat)
    requires i <= |all|
    ensures CountPrefixed(all[..i]) < CountPrefixed(all) ==> i < |all|
  {
    CountGrows(all, i);
    assert all[..|all|] == all;
  }

  lemma NoneLeft(all: seq<Entry>, i: nat)
    requires i <= |all| && CountPrefixed(all[..i]) == CountPrefixed(all)
    ensures forall k :: i <= k < |all| ==> all[k].id.kind != Prefixed
  {
    CountGrows(all, i);
  }

  /** In a list of different names, the `i`th is not among the first `i`. */
  lemma NotBefore(all: seq<Entry>, i: nat)
    requires Distinct(all) && i < |all|
    ensures all[i].id !in IdsOf(all[..i])
  {
  }

  lemma {:induction false} ListedFacts(es: seq<Entry>)
    requires Distinct(es)
    ensures Distinct(Listed(es)) && (forall e :: e in Listed(es) <==> e in es && e.id.kind != Xmlns)
    ensures forall e :: e in Declarations(es) <==> e in es && e.id.kind == Xmlns
    decreases |es|
  {
    if es != [] {
      var n := |es| - 1;
      assert es == es[..n] + [es[n]];
      ListedFacts(es[..n]);
      ListedSnoc(es[..n], es[n]);
      NotBefore(es, n);
      ListedSnoc(Listed(es[..n]), es[n]);
      assert es[n].id !in IdsOf(Listed(es[..n]));
    }
  }

  lemma NoDefaults(ids: set<AttributeId>)
    ensures DefaultEntries([], ids) == []
  {
  }

  /** An attribute with a default value has not come up before. */
  lemma StoredBefore(base: seq<Entry>, table: seq<DefaultAttribute>, j: nat, specified: set<AttributeId>)
    requires j < |table| && FirstWins(table) && IdsOf(base) == specified
    requires forall e :: e in DefaultEntries(table[..j], specified) ==> exists k :: 0 <= k < j && table[k].id == e.id
    ensures table[j].value.Some? && table[j].id in IdsOf(base + DefaultEntries(table[..j], specified)) ==> table[j].id in specified
  {
    var es := DefaultEntries(table[..j], specified);
    assert forall e :: e in base + es ==> e in base || e in es;
  }

  lemma {:induction false} DefaultIds(table: seq<DefaultAttribute>, ids: set<AttributeId>)
    ensures forall e :: e in DefaultEntries(table, ids) ==> exists k :: 0 <= k < |table| && table[k].id == e.id
    decreases |table|
  {
    if table != [] {
      var n := |table| - 1;
      DefaultIds(table[..n], ids);
      forall e | e in DefaultEntries(table, ids) ensures exists k :: 0 <= k < |table| && table[k].id == e.id {
        if e in DefaultEntries(table[..n], ids) {
          var k :| 0 <= k < n && table[..n][k].id == e.id;
          assert table[k].id == e.id;
        } else {
          assert table[n].id == e.id;
        }
      }
    }
  }

  lemma NothingSpecified(v: Values)
    ensures SpecifiedEntries(v, []) == [] && IdsOf([]) == {}
  {
  }

  lemma FoundAmong(es: seq<Entry>, id: AttributeId)
    requires id in IdsOf(es)
    ensures exists k :: 0 <= k < |es| && es[k].id == id
  {
  }

  lemma CountSnoc(es: seq<Entry>, e: Entry)
    ensures CountPrefixed(es + [e]) == CountPrefixed(es) + (if e.id.kind == Prefixed then 1 else 0)
  {
    assert (es + [e])[..|es|] == es;
  }

  lemma {:induction false} SpecifiedIds(v: Values, atts: seq<Specified>)
    ensures |SpecifiedEntries(v, atts)| == |atts|
    ensures forall k :: 0 <= k < |atts| ==> SpecifiedEntries(v, atts)[k].id == atts[k].id
    decreases |atts|
  {
    hide Values.Of;
    if atts != [] { SpecifiedIds(v, atts[..|atts| - 1]); }
  }

  function CountPrefixed(es: seq<Entry>): nat {
    if es == [] then 0 else CountPrefixed(es[..|es| - 1]) + (if es[|es| - 1].id.kind == Prefixed then 1 else 0)
  }
}
