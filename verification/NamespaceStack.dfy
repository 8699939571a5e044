/**
 The code that opens and closes elements in namespace-aware mode: declaring prefixes, building expanded names in the
 buffers of bindings, and undoing both. Whatever nested elements have written into a shared buffer, an element ends
 under the name under which it started.
 */
module NamespaceStack {
  import opened NamespaceScopes
  import opened NamespaceBindings

  /** A string as the application reads it from memory. */
  function CString(s: seq<char>): string {
    if s == [] || s[0] == NUL then [] else [s[0]] + CString(s[1..])
  }

  lemma {:induction false} CStringIs(s: seq<char>, name: string)
    requires |name| < |s| && s[..|name|] == name && s[|name|] == NUL && NUL !in name
    ensures CString(s) == name
    decreases |name|
  {
    if name != [] {
      assert s[0] == s[..|name|][0] == name[0];
      assert s[1..][..|name| - 1] == name[1..];
      CStringIs(s[1..], name[1..]);
      assert [name[0]] + name[1..] == name;
    }
  }

  /** The handler reads the name it is given. */
  method ReadName(a: array<char>) returns (name: string)
    ensures name == CString(a[..])
  {
    var i := 0;
    name := [];
    assert a[0..] == a[..];
    while i < a.Length && a[i] != NUL
      invariant 0 <= i <= a.Length
      invariant name + CString(a[i..]) == CString(a[..])
    {
      assert a[i..][0] == a[i] && a[i..][1..] == a[i + 1..];
      assert name + [a[i]] + CString(a[i + 1..]) == name + ([a[i]] + CString(a[i + 1..]));
      name := name + [a[i]];
      i := i + 1;
    }
    assert name + [] == name;
  }

  /** Copies a string with its terminator to a place in a buffer. */
  method WriteName(a: array<char>, at: nat, name: string)
    requires at + |name| < a.Length
    modifies a
    ensures a[..at] == old(a[..at])
    ensures a[at..at + |name|] == name && a[at + |name|] == NUL
  {
    var i := 0;
    while i < |name|
      invariant 0 <= i <= |name|
      invariant a[..at] == old(a[..at])
      invariant forall k :: 0 <= k < i ==> a[at + k] == name[k]
    {
      a[at + i] := name[i];
      i := i + 1;
    }
    a[at + i] := NUL;
  }

  method CopyString(a: array<char>, s: string)
    requires |s| <= a.Length
    modifies a
    ensures a[..|s|] == s
  {
    forall i | 0 <= i < |s| { a[i] := s[i]; }
  }

  ghost predicate Holds(b: Binding, i: Info)
    reads b, b.uri
  {
    && b.prefix == i.prefix && b.prevPrefixBinding == i.prev
    && b.uriLen == |i.uri| <= b.uri.Length && b.uri[..b.uriLen] == i.uri && NUL !in i.uri
  }

  class Parser {
    /** The namespace separator, or nothing. */
    const separator: string
    var tagStack: seq<Tag>
    var inheritedBindings: seq<Binding>
    var freeBindingList: seq<Binding>
    var prefixes: Prefixes
    var events: seq<NsEvent>
    /** All bindings, in use or free. */
    ghost var owned: set<Binding>
    /** All buffers that bindings have had. */
    ghost var buffers: set<array<char>>
    ghost var info: map<Binding, Info>
    /** For each open tag: the scope around it, the binding whose buffer holds its name, and the name it started under. */
    ghost var scopes: seq<Scope>
    ghost var owners: seq<Binding?>
    ghost var names: seq<string>

    /** Every binding is in exactly one list. `bs`: the bindings of a tag that is being opened; `loose`: one that is about
        to be filled in. */
    ghost predicate Accounted(bs: seq<Binding>, loose: seq<Binding>)
      reads this`owned, this`inheritedBindings, this`tagStack, this`freeBindingList
    {
      Live(inheritedBindings, tagStack) + multiset(bs) + multiset(loose) + multiset(freeBindingList) == multiset(owned)
    }

    /** Every binding has its own buffer. */
    ghost predicate Apart()
      reads this`owned, this`buffers, owned
    {
      && (forall b :: b in owned ==> b.uri in buffers)
      && forall b, c :: b in owned && c in owned && b.uri == c.uri ==> b == c
    }

    ghost predicate AllHold(live: multiset<Binding>)
      reads this`owned, this`info, owned, this`buffers, buffers
    {
      forall x :: x in live ==> x in owned && x in info && x.uri in buffers && Holds(x, info[x])
    }

    ghost predicate InUse(bs: seq<Binding>)
      reads this`owned, this`inheritedBindings, this`tagStack, this`info, owned, this`buffers, buffers
    {
      AllHold(Live(inheritedBindings, tagStack) + multiset(bs))
    }

    ghost predicate Store(bs: seq<Binding>, loose: seq<Binding>)
      reads this`owned, this`inheritedBindings, this`tagStack, this`freeBindingList, this`info, owned, this`buffers, buffers
    {
      Accounted(bs, loose) && Apart() && InUse(bs)
    }

    /** A name is recoverable: as written, or the URI in the buffer of a binding in use and a separate local part. */
    ghost predicate Held(name: TagName, owner: Binding?, full: string, live: multiset<Binding>)
      reads this`owned, this`info, owned
    {
      match name
      case AsWritten(written) => written == full
      case InBuffer(str, localPart, uriLen) =>
        && owner != null && owner in owned && owner in info && owner in live
        && str == owner.uri && uriLen == owner.uriLen == |info[owner].uri|
        && full == info[owner].uri + localPart && uriLen + |localPart| < str.Length && NUL !in localPart
    }

    ghost predicate NameHeldIn(tags: seq<Tag>, owners: seq<Binding?>, names: seq<string>, k: nat)
      requires k < |tags| == |owners| == |names|
      reads this`owned, this`info, this`inheritedBindings, owned
    {
      Held(tags[k].name, owners[k], names[k], Live(inheritedBindings, tags[..k + 1]))
    }

    ghost predicate NamesHeldIn(tags: seq<Tag>, owners: seq<Binding?>, names: seq<string>)
      reads this`owned, this`info, this`inheritedBindings, owned
    {
      && |tags| == |owners| == |names|
      && forall k :: 0 <= k < |tags| ==> NameHeldIn(tags, owners, names, k)
    }

    ghost predicate NameHeld(k: nat)
      requires k < |tagStack| == |owners| == |names|
      reads this`owned, this`tagStack, this`owners, this`names, this`info, this`inheritedBindings, owned
    {
      Held(tagStack[k].name, owners[k], names[k], Live(inheritedBindings, tagStack[..k + 1]))
    }

    ghost predicate NamesHeld()
      reads this`owned, this`tagStack, this`owners, this`names, this`info, this`inheritedBindings, owned
    {
      && |tagStack| == |owners| == |names|
      && forall k :: 0 <= k < |tagStack| ==> NameHeld(k)
    }

    lemma NamesHeldMeans()
      ensures NamesHeld() <==> NamesHeldIn(tagStack, owners, names)
    {
      hide Held, Live;
      if NamesHeld() {
        forall k | 0 <= k < |tagStack| ensures NameHeldIn(tagStack, owners, names, k) { assert NameHeld(k); }
      }
      if NamesHeldIn(tagStack, owners, names) {
        forall k | 0 <= k < |tagStack| ensures NameHeld(k) { assert NameHeldIn(tagStack, owners, names, k); }
      }
    }

    lemma PushNames(tags: seq<Tag>, owners: seq<Binding?>, names: seq<string>, t: Tag, owner: Binding?, full: string)
      requires NamesHeldIn(tags, owners, names) && Held(t.name, owner, full, Live(inheritedBindings, tags) + multiset(t.bindings))
      ensures NamesHeldIn(tags + [t], owners + [owner], names + [full])
    {
      hide Held, Live;
      LivePush(inheritedBindings, tags, t);
      forall k | 0 <= k < |tags| + 1 ensures NameHeldIn(tags + [t], owners + [owner], names + [full], k) {
        if k < |tags| {
          assert NameHeldIn(tags, owners, names, k);
          assert (tags + [t])[..k + 1] == tags[..k + 1];
        } else {
          assert (tags + [t])[..k + 1] == tags + [t];
        }
      }
    }

    lemma PopNames(tags: seq<Tag>, owners: seq<Binding?>, names: seq<string>)
      requires NamesHeldIn(tags, owners, names) && tags != []
      ensures var n := |tags| - 1;
              && NamesHeldIn(tags[..n], owners[..n], names[..n])
              && Held(tags[n].name, owners[n], names[n], Live(inheritedBindings, tags[..n]) + multiset(tags[n].bindings))
    {
      hide Held, Live;
      var n := |tags| - 1;
      LiveTop(inheritedBindings, tags);
      assert NameHeldIn(tags, owners, names, n);
      assert tags[..n + 1] == tags;
      forall k | 0 <= k < n ensures NameHeldIn(tags[..n], owners[..n], names[..n], k) {
        assert NameHeldIn(tags, owners, names, k);
        assert tags[..n][..k + 1] == tags[..k + 1];
      }
    }

    /** While a tag is being opened: `bs` are its bindings so far and `outer` is the scope around it. */
    ghost predicate Pending(bs: seq<Binding>, outer: Scope)
      reads this`owned, this`inheritedBindings, this`tagStack, this`freeBindingList, this`info, this`owners, this`names
      reads this`scopes, this`prefixes, owned, this`buffers, buffers
    {
      && |separator| <= 1 && NUL !in separator
      && Store(bs, []) && NamesHeld()
      && Opening(info, inheritedBindings, tagStack, scopes, prefixes, bs, outer)
    }

    ghost function CurrentScope(): Scope
      reads this`info, this`prefixes
    {
      UriScope(info, prefixes)
    }

    ghost predicate Valid()
      reads this`owned, this`inheritedBindings, this`tagStack, this`freeBindingList, this`info, this`owners, this`names
      reads this`scopes, this`prefixes, owned, this`buffers, buffers
    {
      Pending([], CurrentScope())
    }

    constructor (separator: string)
      requires |separator| <= 1 && NUL !in separator
      ensures Valid() && tagStack == [] && CurrentScope() == map[] && events == [] && this.separator == separator
      ensures owned == {} && buffers == {}
    {
      this.separator := separator;
      tagStack, inheritedBindings, freeBindingList, prefixes, events := [], [], [], map[], [];
      owned, buffers, info, scopes, owners, names := {}, {}, map[], [], [], [];
      new;
      hide Opening, UriScope;
      NothingOpen();
    }

    /** Objects of this parser are its old ones or new. */
    twostate predicate Grown()
      reads this`owned, this`buffers
    {
      && owned >= old(owned) && fresh(owned - old(owned))
      && fresh(buffers - old(buffers))
    }

    /** Names depend only on the bindings in use, and not on what is behind the URI in their buffers. */
    twostate lemma NamesKept()
      requires old(NamesHeld())
      requires unchanged(`tagStack, `inheritedBindings, `owners, `names, `info) && old(owned) <= owned
      requires forall b :: b in Live(inheritedBindings, tagStack) && b in old(owned) ==> b.uri == old(b.uri) && b.uriLen == old(b.uriLen)
      ensures NamesHeld()
    {
      forall k | 0 <= k < |tagStack| ensures NameHeld(k) {
        assert old(NameHeld(k));
        if tagStack[k].name.InBuffer? { LivePrefix(inheritedBindings, tagStack, k + 1, owners[k]); }
      }
    }

    twostate lemma UseKept(bs: seq<Binding>)
      requires old(InUse(bs))
      requires unchanged(`tagStack, `inheritedBindings, `info) && old(owned) <= owned && old(buffers) <= buffers
      requires forall b :: b in Live(inheritedBindings, tagStack) + multiset(bs) && b in old(owned) ==> unchanged(b) && unchanged(b.uri)
      ensures InUse(bs)
    {
      hide Live;
    }

    /** The first free binding, with room for `len` characters. */
    method Recycle(len: nat, ghost bs: seq<Binding>) returns (b: Binding?)
      requires Store(bs, []) && NamesHeld() && |freeBindingList| > 0
      modifies this`freeBindingList, this`buffers, owned
      ensures Grown()
      ensures b != null ==> Store(bs, [b]) && NamesHeld() && b in owned && b.uri in buffers && b.uri.Length >= len
    {
      hide Live, Holds, NamesHeld, InUse;
      b := freeBindingList[0];
      TakeFree(Live(inheritedBindings, tagStack), bs, freeBindingList, owned);
      if len > b.uri.Length {
        var ok: bool := *;
        if !ok { return null; }
        b.uri := new char[len + EXPAND_SPARE];
        buffers := buffers + {b.uri};
      }
      freeBindingList := freeBindingList[1..];
      NamesKept();
      UseKept(bs);
    }

    /** A new binding. */
    method NewBinding(len: nat, ghost bs: seq<Binding>) returns (b: Binding?)
      requires Store(bs, []) && NamesHeld()
      modifies this`owned, this`buffers
      ensures Grown()
      ensures b != null ==> Store(bs, [b]) && NamesHeld() && b in owned && b.uri in buffers && b.uri.Length >= len
    {
      hide Live, Holds, NamesHeld, InUse;
      var ok: bool := *;
      if !ok { return null; }
      b := new Binding(len + EXPAND_SPARE);
      TakeNew(Live(inheritedBindings, tagStack), bs, freeBindingList, owned, b);
      owned, buffers := owned + {b}, buffers + {b.uri};
      NamesKept();
      UseKept(bs);
    }

    /** The entry of a prefix, created when the prefix is first seen. */
    method GetPrefix(p: string, ghost bs: seq<Binding>, ghost outer: Scope)
      requires Pending(bs, outer)
      modifies this`prefixes
      ensures Pending(bs, outer) && p in prefixes && CurrentScope() == old(CurrentScope())
    {
      hide Live, Opening, UriScope, Holds;
      if p !in prefixes {
        OpeningAbsent(info, inheritedBindings, tagStack, scopes, prefixes, bs, outer, p);
        prefixes := prefixes[p := null];
      }
    }

    /** The fields of a binding that is not in use are filled in. */
    method Fill(b: Binding, d: Decl, prev: Binding?, ghost bs: seq<Binding>)
      requires Store(bs, [b]) && NamesHeld() && b in owned
      requires |d.uri| + |separator| <= b.uri.Length && NUL !in d.uri && NUL !in separator
      modifies b`uriLen, b`prefix, b`prevPrefixBinding, b.uri
      ensures Store(bs, [b]) && NamesHeld() && Holds(b, Info(d.prefix, prev, d.uri + separator))
    {
      hide Live, NamesHeld, InUse;
      LooseIsUnused(Live(inheritedBindings, tagStack), bs, b, freeBindingList, owned);
      b.uriLen := |d.uri| + |separator|;
      CopyString(b.uri, d.uri + separator);
      b.prefix := d.prefix;
      b.prevPrefixBinding := prev;
      NamesKept();
      UseKept(bs);
    }

    /** A binding that is not in use gets a meaning. */
    ghost method Inform(b: Binding, i: Info, bs: seq<Binding>)
      requires NamesHeld() && InUse(bs) && b in owned && b.uri in buffers && Holds(b, i)
      requires b !in Live(inheritedBindings, tagStack) + multiset(bs)
      modifies this`info
      ensures info == old(info)[b := i] && NamesHeld() && InUse([b] + bs)
    {
      hide Live, Holds;
      info := info[b := i];
      forall k | 0 <= k < |tagStack| ensures NameHeld(k) {
        assert old(NameHeld(k));
        if tagStack[k].name.InBuffer? { LivePrefix(inheritedBindings, tagStack, k + 1, owners[k]); }
      }
      assert multiset([b] + bs) == multiset{b} + multiset(bs);
      forall c | c in Live(inheritedBindings, tagStack) + multiset([b] + bs) ensures c in owned && c in info && Holds(c, info[c]) {
        if c != b { assert c in Live(inheritedBindings, tagStack) + multiset(bs); }
      }
    }

    /** The binding becomes the binding of its prefix. */
    method Register(b: Binding, d: Decl, bs: seq<Binding>, ghost outer: Scope) returns (bs': seq<Binding>)
      requires |separator| <= 1 && NUL !in separator && Store(bs, [b]) && NamesHeld() && d.prefix in prefixes
      requires Opening(info, inheritedBindings, tagStack, scopes, prefixes, bs, outer)
      requires Holds(b, Info(d.prefix, prefixes[d.prefix], d.uri + separator))
      modifies this`prefixes, this`info
      ensures Pending(bs', outer) && CurrentScope() == Declare(old(CurrentScope()), d, separator)
    {
      hide Live, Opening, UriScope, Holds, NamesHeld, InUse, Declare, Bind;
      LooseIsUnused(Live(inheritedBindings, tagStack), bs, b, freeBindingList, owned);
      OpeningAdd(info, inheritedBindings, tagStack, scopes, prefixes, bs, outer, d, b, separator);
      Inform(b, Info(d.prefix, prefixes[d.prefix], d.uri + separator), bs);
      prefixes := Bind(prefixes, d.prefix, d.uri, b);
      bs' := [b] + bs;
    }

    /** addBinding: one declaration of the tag that is being opened. */
    method AddBinding(d: Decl, bs: seq<Binding>, ghost outer: Scope) returns (ok: bool, bs': seq<Binding>)
      requires Pending(bs, outer) && d.prefix in prefixes && NUL !in d.uri
      modifies this`freeBindingList, this`owned, this`buffers, this`prefixes, this`info, owned, buffers
      ensures Grown()
      ensures ok ==> Pending(bs', outer) && CurrentScope() == Declare(old(CurrentScope()), d, separator)
    {
      hide Live, Opening, UriScope, Holds, NamesHeld, InUse, NameHeld, Accounted, Apart, Declare;
      ok, bs' := false, bs;
      var len := |d.uri| + |separator|;
      var b: Binding?;
      if |freeBindingList| > 0 { b := Recycle(len, bs); } else { b := NewBinding(len, bs); }
      if b == null { return; }
      Fill(b, d, prefixes[d.prefix], bs);
      bs' := Register(b, d, bs, outer);
      ok := true;
    }

    twostate predicate SameUri(c: Binding)
      reads c, c.uri
    {
      && c.prefix == old(c.prefix) && c.prevPrefixBinding == old(c.prevPrefixBinding) && c.uriLen == old(c.uriLen)
      && (old(c.uriLen <= c.uri.Length) ==> c.uriLen <= c.uri.Length && c.uri[..c.uriLen] == old(c.uri[..c.uriLen]))
    }

    /** The URIs in the buffers survive whatever happens behind them. */
    twostate lemma UriKept(bs: seq<Binding>)
      requires old(InUse(bs))
      requires info == old(info) && owned == old(owned) && old(buffers) <= buffers
      requires Live(inheritedBindings, tagStack) == old(Live(inheritedBindings, tagStack))
      requires forall c :: c in owned ==> c.uri in buffers && SameUri(c)
      ensures InUse(bs)
    {
      hide Live;
    }

    /** The loop that corrects the names of the open tags after a buffer has been replaced. */
    method RedirectNames(from: array<char>, to: array<char>)
      modifies this`tagStack
      ensures |tagStack| == |old(tagStack)| && forall k :: 0 <= k < |tagStack| ==> tagStack[k] == Redirect(old(tagStack)[k], from, to)
    {
      var i := 0;
      while i < |tagStack|
        invariant 0 <= i <= |tagStack| == |old(tagStack)|
        invariant forall k :: 0 <= k < |tagStack| ==> tagStack[k] == if k < i then Redirect(old(tagStack)[k], from, to) else old(tagStack)[k]
      {
        tagStack := tagStack[i := Redirect(tagStack[i], from, to)];
        i := i + 1;
      }
    }

    lemma InUseMeans(b: Binding, bs: seq<Binding>)
      requires InUse(bs) && b in Live(inheritedBindings, tagStack) + multiset(bs)
      ensures b in owned && b in info && b.uri in buffers && Holds(b, info[b])
    {
      hide Live;
    }

    /** Replacing the buffer of `b` everywhere keeps every name recoverable. */
    twostate lemma NamesRedirected(b: Binding)
      requires old(NamesHeld()) && old(Apart()) && b in owned
      requires unchanged(`info, `owners, `names, `owned, `inheritedBindings)
      requires |tagStack| == |old(tagStack)|
      requires forall k :: 0 <= k < |tagStack| ==> tagStack[k] == Redirect(old(tagStack)[k], old(b.uri), b.uri)
      requires old(b.uri.Length) <= b.uri.Length
      requires forall c :: c in owned ==> c.uriLen == old(c.uriLen) && (c != b ==> c.uri == old(c.uri))
      ensures NamesHeld()
    {
      hide Live;
      forall k | 0 <= k < |tagStack| ensures NameHeld(k) {
        assert old(NameHeld(k));
        LiveSame(inheritedBindings, old(tagStack)[..k + 1], tagStack[..k + 1]);
      }
    }

    /** The buffer of a binding in use is replaced by a larger one. */
    method GrowBuffer(b: Binding, size: nat, ghost bs: seq<Binding>)
      requires Store(bs, []) && NamesHeld() && b in Live(inheritedBindings, tagStack) + multiset(bs) && size >= b.uri.Length
      modifies this`tagStack, this`buffers, b`uri
      ensures Store(bs, []) && NamesHeld() && b.uri.Length == size && Grown()
      ensures |tagStack| == |old(tagStack)| && forall k :: 0 <= k < |tagStack| ==> tagStack[k].bindings == old(tagStack)[k].bindings
    {
      hide Live, InUse, NameHeld, NamesHeld;
      InUseMeans(b, bs);
      var uri := new char[size];
      forall i | 0 <= i < b.uriLen { uri[i] := b.uri[i]; }
      RedirectNames(b.uri, uri);
      LiveSame(inheritedBindings, old(tagStack), tagStack);
      b.uri := uri;
      buffers := buffers + {uri};
      assert b.uri[..b.uriLen] == old(b.uri[..b.uriLen]);
      UriKept(bs);
      NamesRedirected(b);
    }

    /** A local part is written behind the URI in the buffer of a binding in use. */
    method WriteLocal(ghost b: Binding, str: array<char>, uriLen: nat, localPart: string, ghost bs: seq<Binding>)
      requires Store(bs, []) && NamesHeld() && b in Live(inheritedBindings, tagStack) + multiset(bs)
      requires str == b.uri && uriLen == b.uriLen && uriLen + |localPart| < str.Length && NUL !in localPart
      modifies str
      ensures Store(bs, []) && NamesHeld()
      ensures b in info && CString(str[..]) == info[b].uri + localPart
    {
      hide Live, InUse, NameHeld;
      InUseMeans(b, bs);
      WriteName(str, uriLen, localPart);
      UriKept(bs);
      NamesKept();
      ghost var full := info[b].uri + localPart;
      assert str[..][..|full|] == str[..uriLen] + str[uriLen..uriLen + |localPart|];
      CStringIs(str[..], full);
    }

    lemma BoundPrefix(p: string, bs: seq<Binding>, outer: Scope)
      requires Pending(bs, outer)
      ensures var b := Look(prefixes, p);
              if b == null then p !in CurrentScope()
              else b in Live(inheritedBindings, tagStack) + multiset(bs) && b in info && p in CurrentScope() && CurrentScope()[p] == info[b].uri
    {
      hide Live, Scoped, UriScope, NamesHeld, Accounted, Apart;
      UriAt(info, prefixes, p);
    }

    /** The name of the tag that is being opened, put together in the buffer of the binding of its prefix. */
    method ExpandName(q: QName, ghost bs: seq<Binding>, ghost outer: Scope) returns (ok: bool, name: TagName, ghost owner: Binding?)
      requires Pending(bs, outer) && NUL !in q.local
      modifies this`tagStack, this`buffers, owned, buffers
      ensures Grown()
      ensures ok ==> Pending(bs, outer) && CurrentScope() == old(CurrentScope())
      ensures ok ==> Held(name, owner, ExpandedName(CurrentScope(), q), Live(inheritedBindings, tagStack) + multiset(bs))
      ensures ok && name.InBuffer? ==> CString(name.str[..]) == ExpandedName(CurrentScope(), q)
      ensures |tagStack| == |old(tagStack)|
    {
      hide Live, UriScope, Opening, InUse, NameHeld;
      ok, name, owner := true, AsWritten(RawName(q)), null;
      BoundPrefix(q.prefix, bs, outer);
      var b := Look(prefixes, q.prefix);
      if b == null { return; }
      InUseMeans(b, bs);
      var n := |q.local| + 1 + b.uriLen;
      if n > b.uri.Length {
        ok := *;
        if !ok { return; }
        ghost var before := tagStack;
        GrowBuffer(b, n + EXPAND_SPARE, bs);
        LiveSame(inheritedBindings, before, tagStack);
        OpeningSame(info, inheritedBindings, before, tagStack, scopes, prefixes, bs, outer);
      }
      WriteLocal(b, b.uri, b.uriLen, q.local, bs);
      InUseMeans(b, bs);
      name, owner := InBuffer(b.uri, q.local, b.uriLen), b;
    }

    lemma InheritLive(bs: seq<Binding>, outer: Scope)
      requires Pending(bs, outer) && tagStack == []
      ensures scopes == [] && owners == [] && names == []
      ensures Live(bs + inheritedBindings, []) == Live(inheritedBindings, []) + multiset(bs)
      ensures Scoped(info, bs + inheritedBindings, [], [], prefixes)
    {
      hide UriScope, Store, Grounded, Known;
      OpeningCounts(info, inheritedBindings, tagStack, scopes, prefixes, bs, outer);
      OpeningParts(info, inheritedBindings, tagStack, scopes, prefixes, bs, outer);
      assert multiset(bs + inheritedBindings) == multiset(inheritedBindings) + multiset(bs);
    }

    /** The bindings are nobody's but the parser's. */
    method Adopt(bs: seq<Binding>, ghost outer: Scope)
      requires Pending(bs, outer) && tagStack == []
      modifies this`inheritedBindings
      ensures Valid() && CurrentScope() == old(CurrentScope())
    {
      hide Live, Opening, UriScope, Held, NameHeld, AllHold, Apart, Scoped;
      InheritLive(bs, outer);
      PushCount(Live(inheritedBindings, tagStack), bs, freeBindingList);
      ghost var live := Live(inheritedBindings, tagStack) + multiset(bs);
      inheritedBindings := bs + inheritedBindings;
      ScopedIsOpening(info, inheritedBindings, tagStack, scopes, prefixes);
      assert AllHold(live);
    }

    /** A binding that the parser of an external entity inherits, by setContext. */
    method Inherit(d: Decl) returns (ok: bool)
      requires Valid() && tagStack == [] && NUL !in d.uri
      modifies this`freeBindingList, this`owned, this`buffers, this`prefixes, this`info, this`inheritedBindings, owned, buffers
      ensures Grown()
      ensures ok ==> Valid() && CurrentScope() == Declare(old(CurrentScope()), d, separator)
    {
      hide Pending, UriScope, Declare;
      ghost var outer := CurrentScope();
      GetPrefix(d.prefix, [], outer);
      var bs;
      ok, bs := AddBinding(d, [], outer);
      if ok { Adopt(bs, outer); }
    }

    /** The part of storeAtts that is about namespaces: the declarations in order, then the name. */
    method StoreNamespaces(q: QName, decls: seq<Decl>)
      returns (ok: bool, name: TagName, bs: seq<Binding>, ghost owner: Binding?)
      requires Valid() && NUL !in q.local && forall i :: 0 <= i < |decls| ==> NUL !in decls[i].uri
      modifies this`freeBindingList, this`owned, this`buffers, this`prefixes, this`info, this`tagStack, owned, buffers
      ensures Grown() && |tagStack| == |old(tagStack)|
      ensures ok ==> Pending(bs, old(CurrentScope())) && CurrentScope() == DeclareAll(old(CurrentScope()), decls, separator)
      ensures ok ==> Held(name, owner, ExpandedName(CurrentScope(), q), Live(inheritedBindings, tagStack) + multiset(bs))
      ensures ok && name.InBuffer? ==> CString(name.str[..]) == ExpandedName(CurrentScope(), q)
    {
      hide Live, Opening, UriScope, Holds, NamesHeld, Store, Declare, Held, ExpandedName;
      ghost var outer := CurrentScope();
      bs := [];
      var i := 0;
      assert decls[0..] == decls;
      while i < |decls|
        invariant 0 <= i <= |decls| && Pending(bs, outer) && Grown() && tagStack == old(tagStack)
        invariant DeclareAll(CurrentScope(), decls[i..], separator) == DeclareAll(outer, decls, separator)
      {
        assert decls[i..][0] == decls[i] && decls[i..][1..] == decls[i + 1..];
        GetPrefix(decls[i].prefix, bs, outer);
        ok, bs := AddBinding(decls[i], bs, outer);
        if !ok { name, owner := AsWritten(""), null; return; }
        i := i + 1;
      }
      ok, name, owner := ExpandName(q, bs, outer);
    }

    /** The tag goes onto the stack. */
    method Push(name: TagName, bs: seq<Binding>, ghost owner: Binding?, ghost full: string, ghost outer: Scope)
      requires Pending(bs, outer) && Held(name, owner, full, Live(inheritedBindings, tagStack) + multiset(bs))
      modifies this`tagStack, this`scopes, this`owners, this`names
      ensures Valid() && CurrentScope() == old(CurrentScope())
      ensures tagStack == old(tagStack) + [Tag(name, bs)] && scopes == old(scopes) + [outer] && names == old(names) + [full]
    {
      hide Live, Opening, UriScope, Held, NamesHeldIn, NameHeld, NamesHeld, AllHold, Apart, Scoped;
      NamesHeldMeans();
      OpeningPush(info, inheritedBindings, tagStack, scopes, prefixes, bs, outer, name);
      LivePush(inheritedBindings, tagStack, Tag(name, bs));
      PushNames(tagStack, owners, names, Tag(name, bs), owner, full);
      PushCount(Live(inheritedBindings, tagStack), bs, freeBindingList);
      ghost var live := Live(inheritedBindings, tagStack) + multiset(bs);
      tagStack := tagStack + [Tag(name, bs)];
      scopes, owners, names := scopes + [outer], owners + [owner], names + [full];
      ScopedIsOpening(info, inheritedBindings, tagStack, scopes, prefixes);
      assert AllHold(live);
      NamesHeldMeans();
    }

    /** A start tag. */
    method StartElement(q: QName, decls: seq<Decl>) returns (ok: bool)
      requires Valid() && NUL !in q.local && forall i :: 0 <= i < |decls| ==> NUL !in decls[i].uri
      modifies this, owned, buffers
      ensures Grown()
      ensures ok ==>
                var inner := DeclareAll(old(CurrentScope()), decls, separator);
                && Valid() && CurrentScope() == inner
                && names == old(names) + [ExpandedName(inner, q)] && scopes == old(scopes) + [old(CurrentScope())]
                && events == old(events) + [StartEvent(ExpandedName(inner, q))]
    {
      hide Live, Opening, UriScope, Holds, NameHeld, DeclareAll, ExpandedName;
      ghost var outer, names0, scopes0 := CurrentScope(), names, scopes;
      var name, bs;
      ghost var owner;
      ok, name, bs, owner := StoreNamespaces(q, decls);
      if !ok { return; }
      var text;
      if name.InBuffer? { text := ReadName(name.str); } else { text := name.name; }
      events := events + [StartEvent(text)];
      Push(name, bs, owner, ExpandedName(CurrentScope(), q), outer);
    }

    /** The latest tag leaves the stack; its bindings are still to be undone. */
    method Pop() returns (t: Tag, ghost owner: Binding?)
      requires Valid() && tagStack != []
      modifies this`tagStack, this`scopes, this`owners, this`names
      ensures |old(names)| == |old(scopes)| == |old(tagStack)| && t == old(tagStack)[|old(tagStack)| - 1]
      ensures var k := |old(tagStack)| - 1;
              && tagStack == old(tagStack)[..k] && names == old(names)[..k] && scopes == old(scopes)[..k]
              && Pending(t.bindings, old(scopes)[k]) && CurrentScope() == old(CurrentScope())
              && Held(t.name, owner, old(names)[k], Live(inheritedBindings, tagStack) + multiset(t.bindings))
    {
      hide Live, Opening, UriScope, Holds, Held, NamesHeldIn, NameHeld, NamesHeld, AllHold, Apart, Scoped;
      var k := |tagStack| - 1;
      NamesHeldMeans();
      ScopedIsOpening(info, inheritedBindings, tagStack, scopes, prefixes);
      ScopedPop(info, inheritedBindings, tagStack, scopes, prefixes);
      LiveTop(inheritedBindings, tagStack);
      NamesCount();
      PopNames(tagStack, owners, names);
      t, owner := tagStack[k], owners[k];
      ghost var live := Live(inheritedBindings, tagStack);
      PushCount(Live(inheritedBindings, tagStack[..k]), t.bindings, freeBindingList);
      tagStack := tagStack[..k];
      scopes, owners, names := scopes[..k], owners[..k], names[..k];
      assert AllHold(live);
      NamesHeldMeans();
    }

    lemma NamesCount()
      requires NamesHeld()
      ensures |names| == |owners| == |tagStack|
    {
    }

    /** One declaration is undone, and its binding can be recycled. */
    method Release(bs: seq<Binding>, ghost outer: Scope)
      requires Pending(bs, outer) && bs != []
      modifies this`freeBindingList, this`prefixes
      ensures Pending(bs[1..], outer)
    {
      hide Live, Opening, UriScope, Holds, Held, NameHeld, NamesHeld, AllHold;
      var b := bs[0];
      OpeningUndo(info, inheritedBindings, tagStack, scopes, prefixes, bs, outer);
      ReleaseCount(Live(inheritedBindings, tagStack), bs, freeBindingList);
      assert InUse(bs);
      InUseMeans(b, bs);
      FewerHold(Live(inheritedBindings, tagStack) + multiset(bs), Live(inheritedBindings, tagStack) + multiset(bs[1..]));
      HoldsMeans(b, info[b]);
      freeBindingList := [b] + freeBindingList;
      prefixes := prefixes[b.prefix := b.prevPrefixBinding];
      assert AllHold(Live(inheritedBindings, tagStack) + multiset(bs[1..]));
    }

    lemma FewerHold(live: multiset<Binding>, live': multiset<Binding>)
      requires AllHold(live) && live' <= live
      ensures AllHold(live')
    {
    }

    /** The bindings of a closing tag are undone, the latest first. */
    method ReleaseAll(bindings: seq<Binding>, ghost outer: Scope)
      requires Pending(bindings, outer)
      modifies this`freeBindingList, this`prefixes
      ensures Valid() && CurrentScope() == outer
    {
      hide Live, UriScope, Scoped, Store, NamesHeld;
      var bs := bindings;
      while |bs| > 0
        invariant Pending(bs, outer)
      {
        Release(bs, outer);
        bs := bs[1..];
      }
    }

    lemma Counts()
      requires Valid()
      ensures |names| == |scopes| == |tagStack|
    {
      hide Live, Opening, UriScope, NameHeld, Store;
      OpeningCounts(info, inheritedBindings, tagStack, scopes, prefixes, [], CurrentScope());
    }

    /** The name of a closing element is put together again in the buffer where it was. */
    method EndName(name: TagName, ghost owner: Binding?, ghost full: string, ghost bs: seq<Binding>, ghost outer: Scope) returns (text: string)
      requires Pending(bs, outer) && Held(name, owner, full, Live(inheritedBindings, tagStack) + multiset(bs))
      modifies buffers
      ensures Pending(bs, outer) && text == full
    {
      hide Live, Opening, UriScope, NameHeld, AllHold, Apart;
      if name.InBuffer? {
        InUseMeans(owner, bs);
        WriteLocal(owner, name.str, name.uriLen, name.localPart, bs);
        text := ReadName(name.str);
      } else {
        text := name.name;
      }
    }

    /** An end tag: the name is the one under which the element began, and the scope is the one in which it began. */
    method EndElement()
      requires Valid() && tagStack != []
      modifies this, buffers
      ensures Valid() && Grown() && owned == old(owned) && buffers == old(buffers)
      ensures |old(names)| == |old(scopes)| == |old(tagStack)|
      ensures var k := |old(tagStack)| - 1;
              && tagStack == old(tagStack)[..k] && names == old(names)[..k] && scopes == old(scopes)[..k]
              && CurrentScope() == old(scopes)[k]
              && events == old(events) + [EndEvent(old(names)[k])]
    {
      hide Live, Opening, UriScope, NameHeld, AllHold, Accounted, Apart, Held;
      Counts();
      ghost var name, outer := names[|names| - 1], scopes[|scopes| - 1];
      var t;
      ghost var owner;
      t, owner := Pop();
      var text := EndName(t.name, owner, name, t.bindings, outer);
      ReleaseAll(t.bindings, outer);
      events := events + [EndEvent(text)];
    }

    /** An empty-element tag: both events under the same name, and the declarations are undone at once. */
    method EmptyElement(q: QName, decls: seq<Decl>) returns (ok: bool)
      requires Valid() && NUL !in q.local && forall i :: 0 <= i < |decls| ==> NUL !in decls[i].uri
      modifies this, owned, buffers
      ensures Grown()
      ensures ok ==>
                var name := ExpandedName(DeclareAll(old(CurrentScope()), decls, separator), q);
                && Valid() && CurrentScope() == old(CurrentScope()) && names == old(names) && scopes == old(scopes)
                && events == old(events) + [StartEvent(name), EndEvent(name)]
    {
      hide Live, Opening, UriScope, NameHeld, DeclareAll, ExpandedName, AllHold, Apart, Accounted;
      ghost var outer := CurrentScope();
      var name, bs;
      ghost var owner;
      ok, name, bs, owner := StoreNamespaces(q, decls);
      if !ok { return; }
      var text;
      if name.InBuffer? { text := ReadName(name.str); } else { text := name.name; }
      events := events + [StartEvent(text)];
      if name.InBuffer? { text := ReadName(name.str); } else { text := name.name; }
      events := events + [EndEvent(text)];
      ReleaseAll(bs, outer);
    }

    /** A whole element, whatever it contains: the events are those that its names and declarations call for, and
        afterwards every prefix means what it meant before. */
    method Process(e: Element) returns (ok: bool)
      requires Valid() && NamesOk(e)
      modifies this, owned, buffers
      ensures Grown()
      ensures ok ==> Valid() && CurrentScope() == old(CurrentScope()) && names == old(names) && scopes == old(scopes)
      ensures ok ==> events == old(events) + Events(e, old(CurrentScope()), separator)
      decreases e
    {
      hide Valid, UriScope, DeclareAll, ExpandedName;
      ghost var scope, events0, names0, scopes0 := CurrentScope(), events, names, scopes;
      ghost var inner := DeclareAll(scope, e.decls, separator);
      if e.emptyTag {
        ok := EmptyElement(e.name, e.decls);
        EmptyEvents(e, scope);
      } else {
        ok := StartElement(e.name, e.decls);
        if !ok { return; }
        ok := ProcessAll(e.children);
        if !ok { return; }
        Nested();
        EndElement();
        NestedEvents(e, scope, events0);
      }
    }

    method ProcessAll(es: seq<Element>) returns (ok: bool)
      requires Valid() && forall i :: 0 <= i < |es| ==> NamesOk(es[i])
      modifies this, owned, buffers
      ensures Grown()
      ensures ok ==> Valid() && CurrentScope() == old(CurrentScope()) && names == old(names) && scopes == old(scopes)
      ensures ok ==> events == old(events) + AllEvents(es, old(CurrentScope()), separator)
      decreases es
    {
      hide Valid, UriScope, Events, NamesOk;
      ghost var scope, events0 := CurrentScope(), events;
      var i := 0;
      assert es[0..] == es;
      ok := true;
      while i < |es|
        invariant 0 <= i <= |es| && Valid() && Grown()
        invariant CurrentScope() == scope && names == old(names) && scopes == old(scopes)
        invariant events + AllEvents(es[i..], scope, separator) == events0 + AllEvents(es, scope, separator)
      {
        assert es[i..][0] == es[i] && es[i..][1..] == es[i + 1..];
        ghost var before := events;
        ok := Process(es[i]);
        if !ok { return; }
        Joined(before, Events(es[i], scope, separator), AllEvents(es[i + 1..], scope, separator));
        i := i + 1;
      }
    }

    lemma Nested()
      requires Valid() && names != []
      ensures tagStack != [] && |names| == |scopes| == |tagStack|
    {
      hide UriScope;
      Counts();
    }

    lemma EmptyEvents(e: Element, scope: Scope)
      requires e.children == []
      ensures var name := ExpandedName(DeclareAll(scope, e.decls, separator), e.name);
              Events(e, scope, separator) == [StartEvent(name), EndEvent(name)]
    {
    }

    lemma NestedEvents(e: Element, scope: Scope, before: seq<NsEvent>)
      ensures var inner := DeclareAll(scope, e.decls, separator);
              var name := ExpandedName(inner, e.name);
              before + [StartEvent(name)] + AllEvents(e.children, inner, separator) + [EndEvent(name)] == before + Events(e, scope, separator)
    {
    }
  }

  lemma Joined<T>(a: seq<T>, b: seq<T>, c: seq<T>)
    ensures a + b + c == a + (b + c)
  {
  }

  lemma ReleaseCount(live: multiset<Binding>, bs: seq<Binding>, free: seq<Binding>)
    requires bs != []
    ensures live + multiset(bs) + multiset([]) + multiset(free) == live + multiset(bs[1..]) + multiset([]) + multiset([bs[0]] + free)
    ensures live + multiset(bs[1..]) <= live + multiset(bs) && bs[0] in live + multiset(bs)
  {
    assert bs == [bs[0]] + bs[1..];
    assert multiset([bs[0]] + free) == multiset{bs[0]} + multiset(free);
    assert multiset(bs) == multiset{bs[0]} + multiset(bs[1..]);
  }

  lemma HoldsMeans(b: Binding, i: Info)
    requires Holds(b, i)
    ensures b.prefix == i.prefix && b.prevPrefixBinding == i.prev
  {
  }

  lemma PushCount(live: multiset<Binding>, bs: seq<Binding>, free: seq<Binding>)
    ensures live + multiset(bs) + multiset([]) + multiset(free) == (live + multiset(bs)) + multiset([]) + multiset([]) + multiset(free)
    ensures live + multiset(bs) == (live + multiset(bs)) + multiset([])
  {
  }

  lemma LooseIsUnused(live: multiset<Binding>, bs: seq<Binding>, b: Binding, free: seq<Binding>, owned: set<Binding>)
    requires live + multiset(bs) + multiset([b]) + multiset(free) == multiset(owned)
    ensures b in owned && b !in live && b !in bs && b !in live + multiset(bs)
    ensures live + multiset([b] + bs) + multiset([]) + multiset(free) == multiset(owned)
  {
    assert multiset([b]) == multiset{b};
    assert multiset([b] + bs) == multiset{b} + multiset(bs);
    assert multiset(owned)[b] <= 1;
    assert (live + multiset(bs) + multiset([b]) + multiset(free))[b] <= 1;
    assert (b in bs) == (b in multiset(bs));
  }

  lemma {:induction false} LivePrefix(inherited: seq<Binding>, tags: seq<Tag>, k: nat, b: Binding)
    requires k <= |tags| && b in Live(inherited, tags[..k])
    ensures b in Live(inherited, tags)
    decreases |tags|
  {
    if k < |tags| {
      assert tags[..|tags| - 1][..k] == tags[..k];
      LivePrefix(inherited, tags[..|tags| - 1], k, b);
    } else {
      assert tags[..k] == tags;
    }
  }

  lemma TakeFree(live: multiset<Binding>, bs: seq<Binding>, free: seq<Binding>, owned: set<Binding>)
    requires live + multiset(bs) + multiset([]) + multiset(free) == multiset(owned) && free != []
    ensures live + multiset(bs) + multiset([free[0]]) + multiset(free[1..]) == multiset(owned)
    ensures free[0] in owned && free[0] !in live && free[0] !in bs
  {
    var b := free[0];
    assert free == [b] + free[1..];
    assert multiset(owned)[b] <= 1 && multiset(free)[b] >= 1;
    assert (b in bs) == (b in multiset(bs));
  }

  lemma TakeNew(live: multiset<Binding>, bs: seq<Binding>, free: seq<Binding>, owned: set<Binding>, b: Binding)
    requires live + multiset(bs) + multiset([]) + multiset(free) == multiset(owned) && b !in owned
    ensures live + multiset(bs) + multiset([b]) + multiset(free) == multiset(owned + {b})
    ensures b !in live && b !in bs
  {
    assert multiset(owned + {b}) == multiset(owned) + multiset{b};
    assert multiset([b]) == multiset{b};
    assert (live + multiset(bs) + multiset([]) + multiset(free))[b] == multiset(owned)[b] == 0;
    assert (b in bs) == (b in multiset(bs));
  }
}
