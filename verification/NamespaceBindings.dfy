/**
 The element stack and the namespace bindings. Each binding has one buffer that holds its URI; the expanded name of an
 element is built behind the URI in that buffer, so nested elements overwrite each other's names and may replace the
 buffer by a larger one. Closed bindings are recycled. The reported names are those of NamespaceScopes nevertheless.
 */
module NamespaceBindings {
  import opened NamespaceScopes

  const EXPAND_SPARE := 24

  class Binding {
    var prefix: string
    /** The buffer; its length is uriAlloc. */
    var uri: array<char>
    var uriLen: nat
    var prevPrefixBinding: Binding?

    constructor (alloc: nat)
      ensures fresh(uri) && uri.Length == alloc && uriLen == 0
    {
      uri := new char[alloc];
      uriLen, prefix, prevPrefixBinding := 0, "", null;
    }
  }

  /** The name of an open element: as written, or in the buffer of a binding. */
  datatype TagName = AsWritten(name: string) | InBuffer(str: array<char>, localPart: string, uriLen: nat)

  /** `bindings`: those declared by the tag, the latest first. */
  datatype Tag = Tag(name: TagName, bindings: seq<Binding>)

  // ---------------------------------------------------------------- bindings as values

  /** What a binding in use says: all of this stays as it is until the binding is recycled. */
  datatype Info = Info(prefix: string, prev: Binding?, uri: string)

  /** The current binding of each prefix. */
  type Prefixes = map<string, Binding?>

  function Look(m: Prefixes, p: string): Binding? {
    if p in m then m[p] else null
  }

  ghost function UriScope(info: map<Binding, Info>, m: Prefixes): Scope {
    map p | p in m && m[p] != null && m[p] in info :: info[m[p]].uri
  }

  /** The bindings in use, with those that were inherited. */
  ghost function Live(inherited: seq<Binding>, tags: seq<Tag>): multiset<Binding>
    decreases |tags|
  {
    if tags == [] then multiset(inherited) else Live(inherited, tags[..|tags| - 1]) + multiset(tags[|tags| - 1].bindings)
  }

  /** Every binding that a prefix leads to is in use. */
  ghost predicate Grounded(m: Prefixes, live: multiset<Binding>) {
    forall p :: p in m && m[p] != null ==> m[p] in live
  }

  /** Every prefix that was ever bound has an entry. */
  ghost predicate Known(info: map<Binding, Info>, m: Prefixes, live: multiset<Binding>) {
    forall b :: b in live ==> b in info && info[b].prefix in m
  }

  /** Undoing the bindings of the open tags, the latest first, gives back the scopes in which the tags were opened. */
  ghost predicate Scoped(info: map<Binding, Info>, inherited: seq<Binding>, tags: seq<Tag>, scopes: seq<Scope>, m: Prefixes)
    decreases |tags|, 0
  {
    && |scopes| == |tags|
    && Grounded(m, Live(inherited, tags)) && Known(info, m, Live(inherited, tags))
    && (tags != [] ==>
          var k := |tags| - 1;
          Opening(info, inherited, tags[..k], scopes[..k], m, tags[k].bindings, scopes[k]))
  }

  /** On top of the open tags there is one with bindings `bs`; undoing them gives back the scope `outer`. */
  ghost predicate Opening(info: map<Binding, Info>, inherited: seq<Binding>, tags: seq<Tag>, scopes: seq<Scope>, m: Prefixes,
                          bs: seq<Binding>, outer: Scope)
    decreases |tags|, 1 + |bs|
  {
    && Grounded(m, Live(inherited, tags) + multiset(bs)) && Known(info, m, Live(inherited, tags) + multiset(bs))
    && if bs == [] then UriScope(info, m) == outer && Scoped(info, inherited, tags, scopes, m)
       else bs[0] in info && Opening(info, inherited, tags, scopes, m[info[bs[0]].prefix := info[bs[0]].prev], bs[1..], outer)
  }

  lemma LiveTop(inherited: seq<Binding>, tags: seq<Tag>)
    requires tags != []
    ensures Live(inherited, tags) == Live(inherited, tags[..|tags| - 1]) + multiset(tags[|tags| - 1].bindings)
  {
  }

  lemma LivePush(inherited: seq<Binding>, tags: seq<Tag>, t: Tag)
    ensures Live(inherited, tags + [t]) == Live(inherited, tags) + multiset(t.bindings)
  {
    assert (tags + [t])[..|tags|] == tags;
  }

  lemma TailLive(live: multiset<Binding>, bs: seq<Binding>)
    requires bs != []
    ensures live + multiset(bs) == live + multiset(bs[1..]) + multiset{bs[0]}
  {
    assert bs == [bs[0]] + bs[1..];
  }

  lemma UriAt(info: map<Binding, Info>, m: Prefixes, p: string)
    ensures p in UriScope(info, m) <==> Look(m, p) != null && Look(m, p) in info
    ensures p in UriScope(info, m) ==> UriScope(info, m)[p] == info[Look(m, p)].uri
  {
  }

  // ---------------------------------------------------------------- what does not matter

  lemma UriFrame(info: map<Binding, Info>, info': map<Binding, Info>, m: Prefixes, live: multiset<Binding>)
    requires Grounded(m, live) && Known(info, m, live) && forall b :: b in live ==> b in info && b in info' && info'[b] == info[b]
    ensures UriScope(info', m) == UriScope(info, m)
    ensures Known(info', m, live)
  {
  }

  /** A binding that is not in use can be given a new meaning. */
  lemma {:induction false} ScopedFrame(info: map<Binding, Info>, info': map<Binding, Info>, inherited: seq<Binding>, tags: seq<Tag>,
                                       scopes: seq<Scope>, m: Prefixes)
    requires Scoped(info, inherited, tags, scopes, m)
    requires forall b :: b in Live(inherited, tags) ==> b in info && b in info' && info'[b] == info[b]
    ensures Scoped(info', inherited, tags, scopes, m)
    decreases |tags|, 0
  {
    hide Live, UriScope, Grounded, Known, Opening;
    UriFrame(info, info', m, Live(inherited, tags));
    if tags != [] {
      var k := |tags| - 1;
      LiveTop(inherited, tags);
      OpeningFrame(info, info', inherited, tags[..k], scopes[..k], m, tags[k].bindings, scopes[k]);
    }
  }

  lemma {:induction false} OpeningFrame(info: map<Binding, Info>, info': map<Binding, Info>, inherited: seq<Binding>, tags: seq<Tag>,
                                        scopes: seq<Scope>, m: Prefixes, bs: seq<Binding>, outer: Scope)
    requires Opening(info, inherited, tags, scopes, m, bs, outer)
    requires forall b :: b in Live(inherited, tags) + multiset(bs) ==> b in info && b in info' && info'[b] == info[b]
    ensures Opening(info', inherited, tags, scopes, m, bs, outer)
    decreases |tags|, 1 + |bs|
  {
    hide Live, UriScope, Grounded, Known, Scoped;
    var live := Live(inherited, tags);
    UriFrame(info, info', m, live + multiset(bs));
    if bs == [] {
      ScopedFrame(info, info', inherited, tags, scopes, m);
    } else {
      TailLive(live, bs);
      assert bs[0] in live + multiset(bs);
      OpeningFrame(info, info', inherited, tags, scopes, m[info[bs[0]].prefix := info[bs[0]].prev], bs[1..], outer);
    }
  }

  lemma UriAbsent(info: map<Binding, Info>, m: Prefixes, p: string, live: multiset<Binding>)
    requires p !in m && Grounded(m, live) && Known(info, m, live)
    ensures UriScope(info, m[p := null]) == UriScope(info, m)
    ensures Grounded(m[p := null], live) && Known(info, m[p := null], live)
  {
    hide UriScope;
    var before, after := UriScope(info, m), UriScope(info, m[p := null]);
    forall q ensures (q in after <==> q in before) && (q in after ==> after[q] == before[q]) {
      UriAt(info, m, q);
      UriAt(info, m[p := null], q);
    }
  }

  /** An entry for a prefix that was never bound changes nothing. */
  lemma {:induction false} ScopedAbsent(info: map<Binding, Info>, inherited: seq<Binding>, tags: seq<Tag>, scopes: seq<Scope>,
                                        m: Prefixes, p: string)
    requires Scoped(info, inherited, tags, scopes, m) && p !in m
    ensures Scoped(info, inherited, tags, scopes, m[p := null])
    decreases |tags|, 0
  {
    hide Live, UriScope, Grounded, Known, Opening;
    UriAbsent(info, m, p, Live(inherited, tags));
    if tags != [] {
      var k := |tags| - 1;
      OpeningAbsent(info, inherited, tags[..k], scopes[..k], m, tags[k].bindings, scopes[k], p);
    }
  }

  lemma {:induction false} OpeningAbsent(info: map<Binding, Info>, inherited: seq<Binding>, tags: seq<Tag>, scopes: seq<Scope>, m: Prefixes,
                                         bs: seq<Binding>, outer: Scope, p: string)
    requires Opening(info, inherited, tags, scopes, m, bs, outer) && p !in m
    ensures Opening(info, inherited, tags, scopes, m[p := null], bs, outer)
    ensures UriScope(info, m[p := null]) == UriScope(info, m)
    decreases |tags|, 1 + |bs|
  {
    hide Live, UriScope, Grounded, Scoped;
    UriAbsent(info, m, p, Live(inherited, tags) + multiset(bs));
    if bs == [] {
      ScopedAbsent(info, inherited, tags, scopes, m, p);
    } else {
      TailLive(Live(inherited, tags), bs);
      var i := info[bs[0]];
      assert i.prefix in m;
      assert m[p := null][i.prefix := i.prev] == m[i.prefix := i.prev][p := null];
      OpeningAbsent(info, inherited, tags, scopes, m[i.prefix := i.prev], bs[1..], outer, p);
    }
  }

  /** Scopes depend on the bindings of the tags only. */
  lemma {:induction false} LiveSame(inherited: seq<Binding>, tags: seq<Tag>, tags': seq<Tag>)
    requires |tags| == |tags'| && forall i :: 0 <= i < |tags| ==> tags'[i].bindings == tags[i].bindings
    ensures Live(inherited, tags') == Live(inherited, tags)
    decreases |tags|
  {
    if tags != [] { LiveSame(inherited, tags[..|tags| - 1], tags'[..|tags| - 1]); }
  }

  lemma {:induction false} ScopedSame(info: map<Binding, Info>, inherited: seq<Binding>, tags: seq<Tag>, tags': seq<Tag>,
                                      scopes: seq<Scope>, m: Prefixes)
    requires Scoped(info, inherited, tags, scopes, m)
    requires |tags| == |tags'| && forall i :: 0 <= i < |tags| ==> tags'[i].bindings == tags[i].bindings
    ensures Scoped(info, inherited, tags', scopes, m)
    decreases |tags|, 0
  {
    hide Live, UriScope, Grounded, Known, Opening;
    LiveSame(inherited, tags, tags');
    if tags != [] {
      var k := |tags| - 1;
      OpeningSame(info, inherited, tags[..k], tags'[..k], scopes[..k], m, tags[k].bindings, scopes[k]);
    }
  }

  lemma {:induction false} OpeningSame(info: map<Binding, Info>, inherited: seq<Binding>, tags: seq<Tag>, tags': seq<Tag>, scopes: seq<Scope>,
                                       m: Prefixes, bs: seq<Binding>, outer: Scope)
    requires Opening(info, inherited, tags, scopes, m, bs, outer)
    requires |tags| == |tags'| && forall i :: 0 <= i < |tags| ==> tags'[i].bindings == tags[i].bindings
    ensures Opening(info, inherited, tags', scopes, m, bs, outer)
    decreases |tags|, 1 + |bs|
  {
    hide Live, UriScope, Grounded, Known, Scoped;
    LiveSame(inherited, tags, tags');
    if bs == [] {
      ScopedSame(info, inherited, tags, tags', scopes, m);
    } else {
      OpeningSame(info, inherited, tags, tags', scopes, m[info[bs[0]].prefix := info[bs[0]].prev], bs[1..], outer);
    }
  }

  // ---------------------------------------------------------------- declaring and undoing

  function Bind(m: Prefixes, p: string, uri: string, b: Binding): Prefixes {
    m[p := if uri == "" && p == "" then null else b]
  }

  lemma GroundedAdd(info: map<Binding, Info>, m: Prefixes, live: multiset<Binding>, bs: seq<Binding>, p: string, uri: string, b: Binding,
                    stored: string)
    requires Grounded(m, live + multiset(bs)) && Known(info, m, live + multiset(bs)) && p in m
    ensures Grounded(Bind(m, p, uri, b), live + multiset([b] + bs))
    ensures Known(info[b := Info(p, m[p], stored)], Bind(m, p, uri, b), live + multiset([b] + bs))
  {
    assert multiset([b] + bs) == multiset{b} + multiset(bs);
  }

  lemma UriDeclare(info: map<Binding, Info>, m: Prefixes, live: multiset<Binding>, d: Decl, b: Binding, separator: string)
    requires Grounded(m, live) && b !in live
    ensures UriScope(info[b := Info(d.prefix, Look(m, d.prefix), d.uri + separator)], Bind(m, d.prefix, d.uri, b)) ==
            Declare(UriScope(info, m), d, separator)
  {
    hide UriScope;
    var info', m' := info[b := Info(d.prefix, Look(m, d.prefix), d.uri + separator)], Bind(m, d.prefix, d.uri, b);
    var before, after := UriScope(info, m), UriScope(info', m');
    var declared := Declare(before, d, separator);
    forall p ensures (p in after <==> p in declared) && (p in after ==> after[p] == declared[p]) {
      UriAt(info, m, p);
      UriAt(info', m', p);
    }
  }

  lemma OpeningParts(info: map<Binding, Info>, inherited: seq<Binding>, tags: seq<Tag>, scopes: seq<Scope>, m: Prefixes,
                     bs: seq<Binding>, outer: Scope)
    requires Opening(info, inherited, tags, scopes, m, bs, outer)
    ensures Grounded(m, Live(inherited, tags) + multiset(bs)) && Known(info, m, Live(inherited, tags) + multiset(bs))
  {
    hide Grounded, Known, Live, Scoped, UriScope;
  }

  lemma OpeningCons(info: map<Binding, Info>, inherited: seq<Binding>, tags: seq<Tag>, scopes: seq<Scope>, m: Prefixes,
                    b: Binding, bs: seq<Binding>, outer: Scope)
    requires Grounded(m, Live(inherited, tags) + multiset([b] + bs)) && Known(info, m, Live(inherited, tags) + multiset([b] + bs))
    requires b in info && Opening(info, inherited, tags, scopes, m[info[b].prefix := info[b].prev], bs, outer)
    ensures Opening(info, inherited, tags, scopes, m, [b] + bs, outer)
  {
    hide Grounded, Known, Live, Scoped, UriScope;
    assert ([b] + bs)[0] == b && ([b] + bs)[1..] == bs;
  }

  lemma NothingOpen()
    ensures Opening(map[], [], [], [], map[], [], map[]) && UriScope(map[], map[]) == map[]
  {
  }

  /** One declaration: the tag gets one more binding, and the surroundings stay as they were. */
  lemma OpeningAdd(info: map<Binding, Info>, inherited: seq<Binding>, tags: seq<Tag>, scopes: seq<Scope>, m: Prefixes,
                   bs: seq<Binding>, outer: Scope, d: Decl, b: Binding, separator: string)
    requires Opening(info, inherited, tags, scopes, m, bs, outer) && d.prefix in m
    requires b !in Live(inherited, tags) + multiset(bs)
    ensures var info' := info[b := Info(d.prefix, m[d.prefix], d.uri + separator)];
            var m' := Bind(m, d.prefix, d.uri, b);
            && Opening(info', inherited, tags, scopes, m', [b] + bs, outer)
            && UriScope(info', m') == Declare(UriScope(info, m), d, separator)
  {
    hide UriScope, Scoped, Live, Declare, Opening, Grounded;
    var info' := info[b := Info(d.prefix, m[d.prefix], d.uri + separator)];
    var m' := Bind(m, d.prefix, d.uri, b);
    var live := Live(inherited, tags);
    OpeningParts(info, inherited, tags, scopes, m, bs, outer);
    GroundedAdd(info, m, live, bs, d.prefix, d.uri, b, d.uri + separator);
    OpeningFrame(info, info', inherited, tags, scopes, m, bs, outer);
    UriDeclare(info, m, live + multiset(bs), d, b, separator);
    assert m'[d.prefix := m[d.prefix]] == m;
    OpeningCons(info', inherited, tags, scopes, m', b, bs, outer);
  }

  /** The tag is open. */
  lemma OpeningPush(info: map<Binding, Info>, inherited: seq<Binding>, tags: seq<Tag>, scopes: seq<Scope>, m: Prefixes,
                    bs: seq<Binding>, outer: Scope, name: TagName)
    requires Opening(info, inherited, tags, scopes, m, bs, outer)
    ensures Scoped(info, inherited, tags + [Tag(name, bs)], scopes + [outer], m)
  {
    hide UriScope, Grounded, Known, Live;
    var tags', scopes' := tags + [Tag(name, bs)], scopes + [outer];
    OpeningCounts(info, inherited, tags, scopes, m, bs, outer);
    assert tags'[..|tags|] == tags && scopes'[..|tags|] == scopes;
    LivePush(inherited, tags, Tag(name, bs));
  }

  lemma {:induction false} OpeningCounts(info: map<Binding, Info>, inherited: seq<Binding>, tags: seq<Tag>, scopes: seq<Scope>, m: Prefixes,
                                         bs: seq<Binding>, outer: Scope)
    requires Opening(info, inherited, tags, scopes, m, bs, outer)
    ensures |scopes| == |tags|
    decreases |bs|
  {
    hide UriScope, Grounded, Known, Live;
    if bs != [] {
      OpeningCounts(info, inherited, tags, scopes, m[info[bs[0]].prefix := info[bs[0]].prev], bs[1..], outer);
    }
  }

  /** The latest tag leaves the stack. */
  lemma ScopedPop(info: map<Binding, Info>, inherited: seq<Binding>, tags: seq<Tag>, scopes: seq<Scope>, m: Prefixes)
    requires Scoped(info, inherited, tags, scopes, m) && tags != []
    ensures |scopes| == |tags|
    ensures var k := |tags| - 1; Opening(info, inherited, tags[..k], scopes[..k], m, tags[k].bindings, scopes[k])
  {
    hide UriScope, Grounded, Known, Live, Opening;
  }

  /** The latest declaration is undone. */
  lemma OpeningUndo(info: map<Binding, Info>, inherited: seq<Binding>, tags: seq<Tag>, scopes: seq<Scope>, m: Prefixes,
                    bs: seq<Binding>, outer: Scope)
    requires Opening(info, inherited, tags, scopes, m, bs, outer) && bs != []
    ensures bs[0] in info
    ensures Opening(info, inherited, tags, scopes, m[info[bs[0]].prefix := info[bs[0]].prev], bs[1..], outer)
  {
    hide UriScope, Grounded, Known, Live, Scoped;
  }

  /** Between two tags nothing is pending. */
  lemma ScopedIsOpening(info: map<Binding, Info>, inherited: seq<Binding>, tags: seq<Tag>, scopes: seq<Scope>, m: Prefixes)
    ensures Scoped(info, inherited, tags, scopes, m) <==> Opening(info, inherited, tags, scopes, m, [], UriScope(info, m))
  {
    hide UriScope, Grounded, Known, Live;
    var live := Live(inherited, tags);
    assert live + multiset([]) == live;
  }

  // ---------------------------------------------------------------- names of tags

  /** Replacing a buffer in the names of the open tags. */
  function Redirect(t: Tag, from: array<char>, to: array<char>): Tag {
    if t.name.InBuffer? && t.name.str == from then t.(name := t.name.(str := to)) else t
  }
}
