/**
 Namespace scopes: what a run of start and end tags should report (section 5 of Namespaces in XML), and the facts about
 the chains of bindings that undo declarations in reverse order.
 */
module NamespaceScopes {
  datatype QName = QName(prefix: string, local: string)

  /** The URI of each bound prefix, with the separator behind it; the default namespace has the prefix "". */
  type Scope = map<string, string>

  datatype Decl = Decl(prefix: string, uri: string)

  const NUL := 0 as char

  function RawName(q: QName): string {
    if q.prefix == "" then q.local else q.prefix + ":" + q.local
  }

  /** A prefix has no colon, and a name without prefix has none. */
  predicate IsQName(q: QName) {
    ':' !in q.prefix && (q.prefix == "" ==> ':' !in q.local)
  }

  /** A name as it is written has one prefix, what stands before its first colon, and one local part. */
  lemma RawNameDetermines(q: QName, r: QName)
    requires IsQName(q) && IsQName(r) && RawName(q) == RawName(r)
    ensures q == r
    ensures q.prefix != "" ==> RawName(q)[..|q.prefix| + 1] == q.prefix + ":" && RawName(q)[|q.prefix| + 1..] == q.local
  {
    var a, b := RawName(q), RawName(r);
    FirstColon(q);
    FirstColon(r);
    if q.prefix != "" && r.prefix != "" {
      assert |q.prefix| == |r.prefix|;
      assert a[..|q.prefix|] == q.prefix && b[..|q.prefix|] == r.prefix;
      assert a[|q.prefix| + 1..] == q.local && b[|q.prefix| + 1..] == r.local;
    }
  }

  lemma FirstColon(q: QName)
    requires IsQName(q)
    ensures var a := RawName(q);
            if q.prefix == "" then ':' !in a else a[|q.prefix|] == ':' && forall k :: 0 <= k < |q.prefix| ==> a[k] != ':'
  {
    if q.prefix != "" { assert forall k :: 0 <= k < |q.prefix| ==> RawName(q)[k] == q.prefix[k]; }
  }

  /** An empty URI takes the default namespace away. */
  function Declare(scope: Scope, d: Decl, separator: string): Scope {
    if d.uri == "" && d.prefix == "" then scope - {""} else scope[d.prefix := d.uri + separator]
  }

  function DeclareAll(scope: Scope, decls: seq<Decl>, separator: string): Scope
    decreases |decls|
  {
    if decls == [] then scope else DeclareAll(Declare(scope, decls[0], separator), decls[1..], separator)
  }

  /** A bound prefix is replaced by its URI; a name with an unbound prefix stays as it is written. */
  function ExpandedName(scope: Scope, q: QName): string {
    if q.prefix in scope then scope[q.prefix] + q.local else RawName(q)
  }

  // ---------------------------------------------------------------- documents and their events

  datatype Element = Element(name: QName, decls: seq<Decl>, children: seq<Element>, emptyTag: bool)

  datatype NsEvent = StartEvent(name: string) | EndEvent(name: string)

  /** The events of an element whose surroundings have the given scope. */
  function Events(e: Element, scope: Scope, separator: string): seq<NsEvent> {
    var inner := DeclareAll(scope, e.decls, separator);
    var name := ExpandedName(inner, e.name);
    [StartEvent(name)] + AllEvents(e.children, inner, separator) + [EndEvent(name)]
  }

  function AllEvents(es: seq<Element>, scope: Scope, separator: string): seq<NsEvent>
    decreases es
  {
    if es == [] then [] else Events(es[0], scope, separator) + AllEvents(es[1..], scope, separator)
  }

  predicate NamesOk(e: Element) {
    && NUL !in e.name.prefix && NUL !in e.name.local
    && (e.emptyTag ==> e.children == [])
    && (forall i :: 0 <= i < |e.decls| ==> NUL !in e.decls[i].uri)
    && (forall i :: 0 <= i < |e.children| ==> NamesOk(e.children[i]))
  }

  // ---------------------------------------------------------------- what the scope of an element is

  /** The last declaration of a prefix decides; an empty URI takes the default namespace away, and where there is no
      declaration the scope is as before. */
  predicate Decides(scope: Scope, decls: seq<Decl>, separator: string, prefix: string, after: Scope) {
    && (forall j :: 0 <= j < |decls| && LastOf(decls, j, prefix) ==>
         if prefix == "" && decls[j].uri == "" then prefix !in after else prefix in after && after[prefix] == decls[j].uri + separator)
    && ((forall j :: 0 <= j < |decls| ==> decls[j].prefix != prefix) ==>
         (prefix in after <==> prefix in scope) && (prefix in after ==> after[prefix] == scope[prefix]))
  }

  predicate LastOf(decls: seq<Decl>, j: nat, prefix: string) {
    j < |decls| && decls[j].prefix == prefix && forall k :: j < k < |decls| ==> decls[k].prefix != prefix
  }

  lemma {:induction false} LastDecides(scope: Scope, decls: seq<Decl>, separator: string, prefix: string)
    ensures Decides(scope, decls, separator, prefix, DeclareAll(scope, decls, separator))
    decreases |decls|
  {
    if decls != [] {
      var next, rest := Declare(scope, decls[0], separator), decls[1..];
      var after := DeclareAll(scope, decls, separator);
      LastDecides(next, rest, separator, prefix);
      forall j | 0 <= j < |decls| && LastOf(decls, j, prefix)
        ensures if prefix == "" && decls[j].uri == "" then prefix !in after else prefix in after && after[prefix] == decls[j].uri + separator
      {
        if j > 0 {
          assert rest[j - 1] == decls[j] && forall k :: j - 1 < k < |rest| ==> rest[k] == decls[k + 1];
          assert LastOf(rest, j - 1, prefix);
        } else {
          assert forall k :: 0 <= k < |rest| ==> rest[k] == decls[k + 1];
        }
      }
      if forall j :: 0 <= j < |decls| ==> decls[j].prefix != prefix {
        assert decls[0].prefix != prefix && forall k :: 0 <= k < |rest| ==> rest[k] == decls[k + 1];
      }
    }
  }

  /** The way from an element to one inside it, child by child. */
  predicate Leads(e: Element, path: seq<nat>)
    decreases |path|
  {
    path == [] || (path[0] < |e.children| && Leads(e.children[path[0]], path[1..]))
  }

  function ElementAt(e: Element, path: seq<nat>): Element
    requires Leads(e, path)
    decreases |path|
  {
    if path == [] then e else ElementAt(e.children[path[0]], path[1..])
  }

  /** All declarations on the way, the outermost first, with those of the element itself. */
  function DeclsTo(e: Element, path: seq<nat>): seq<Decl>
    requires Leads(e, path)
    decreases |path|
  {
    if path == [] then e.decls else e.decls + DeclsTo(e.children[path[0]], path[1..])
  }

  /** What an element inside another is reported as, between the events in front of it and those behind: its start and its end
      have one name, and that is its own name in the scope that all declarations on the way to it make. */
  lemma {:induction false} ElementReported(e: Element, scope: Scope, separator: string, path: seq<nat>)
    returns (before: seq<NsEvent>, inside: seq<NsEvent>, after: seq<NsEvent>)
    requires Leads(e, path)
    ensures var name := ExpandedName(DeclareAll(scope, DeclsTo(e, path), separator), ElementAt(e, path).name);
            Events(e, scope, separator) == before + [StartEvent(name)] + inside + [EndEvent(name)] + after
    decreases |path|
  {
    hide Events, AllEvents, DeclareAll, ExpandedName;
    EventsOnce(e, scope, separator);
    var inner := DeclareAll(scope, e.decls, separator);
    if path == [] {
      before, inside, after := [], AllEvents(e.children, inner, separator), [];
    } else {
      var i := path[0];
      var c := e.children[i];
      var b, a;
      b, inside, a := ElementReported(c, inner, separator, path[1..]);
      AllEventsSplit(e.children, i, inner, separator);
      DeclareAllJoins(scope, e.decls, DeclsTo(c, path[1..]), separator);
      var name := ExpandedName(inner, e.name);
      before := [StartEvent(name)] + AllEvents(e.children[..i], inner, separator) + b;
      after := a + AllEvents(e.children[i + 1..], inner, separator) + [EndEvent(name)];
      var it := ExpandedName(DeclareAll(scope, DeclsTo(e, path), separator), ElementAt(e, path).name);
      Regroup([StartEvent(name)], AllEvents(e.children[..i], inner, separator), b, [StartEvent(it)] + inside + [EndEvent(it)], a,
              AllEvents(e.children[i + 1..], inner, separator), [EndEvent(name)]);
      assert b + [StartEvent(it)] + inside + [EndEvent(it)] + a == b + ([StartEvent(it)] + inside + [EndEvent(it)]) + a;
      assert before + [StartEvent(it)] + inside + [EndEvent(it)] + after == before + ([StartEvent(it)] + inside + [EndEvent(it)]) + after;
    }
  }

  lemma EventsOnce(e: Element, scope: Scope, separator: string)
    ensures var inner := DeclareAll(scope, e.decls, separator);
            Events(e, scope, separator) ==
            [StartEvent(ExpandedName(inner, e.name))] + AllEvents(e.children, inner, separator) + [EndEvent(ExpandedName(inner, e.name))]
  {
    hide AllEvents, DeclareAll;
  }

  lemma Regroup<T>(s: seq<T>, l: seq<T>, b: seq<T>, x: seq<T>, a: seq<T>, r: seq<T>, t: seq<T>)
    ensures s + (l + (b + x + a) + r) + t == (s + l + b) + x + (a + r + t)
  {
  }

  lemma {:induction false} AllEventsSplit(es: seq<Element>, i: nat, scope: Scope, separator: string)
    requires i < |es|
    ensures AllEvents(es, scope, separator) ==
            AllEvents(es[..i], scope, separator) + Events(es[i], scope, separator) + AllEvents(es[i + 1..], scope, separator)
    decreases i
  {
    hide Events;
    if i > 0 {
      AllEventsSplit(es[1..], i - 1, scope, separator);
      assert es[1..][..i - 1] == es[..i][1..] && es[1..][i..] == es[i + 1..];
    }
  }

  lemma {:induction false} DeclareAllJoins(scope: Scope, a: seq<Decl>, b: seq<Decl>, separator: string)
    ensures DeclareAll(scope, a + b, separator) == DeclareAll(DeclareAll(scope, a, separator), b, separator)
    decreases |a|
  {
    if a == [] {
      assert a + b == b;
    } else {
      assert (a + b)[1..] == a[1..] + b;
      DeclareAllJoins(Declare(scope, a[0], separator), a[1..], b, separator);
    }
  }
}
