/**
 Open-addressing hash tables: probing goes downward and wraps around, the table doubles when it is half full, and entries
 are never removed. A table behaves as a finite map from names to entries, for any hash function.
 */
module HashTables {
  const INIT_SIZE := 64

  class Named {
    const name: string

    constructor (name: string)
      ensures this.name == name
    {
      this.name := name;
    }
  }

  type Slots = seq<Named?>

  // ---------------------------------------------------------------- the home slot

  /** The bits that two numbers have in common. */
  function BitAnd(a: nat, b: nat): nat {
    if a == 0 || b == 0 then 0 else (a % 2) * (b % 2) + 2 * BitAnd(a / 2, b / 2)
  }

  predicate PowerOfTwo(n: nat) {
    n == 1 || (n > 1 && n % 2 == 0 && PowerOfTwo(n / 2))
  }

  lemma HalfRemainder(h: nat, m: nat)
    requires m > 0
    ensures h % 2 + 2 * (h / 2 % m) == h % (2 * m)
  {
    Quotient(h / 2, m);
    Quotient(h, 2 * m);
    var q, t, k, r := h / 2 / m, h / 2 % m, h / (2 * m), h % (2 * m);
    var d := q - k;
    assert (2 * m) * q == 2 * (m * q) && (2 * m) * d == (2 * m) * q - (2 * m) * k;
    SmallMultiple(2 * m, d, r - (h % 2 + 2 * t));
  }

  lemma Quotient(h: nat, n: nat)
    requires n > 0
    ensures h == n * (h / n) + h % n && 0 <= h % n < n
  {
  }

  lemma SmallMultiple(n: int, d: int, x: int)
    requires n > 0 && x == n * d && -n < x < n
    ensures d == 0 && x == 0
  {
    Multiple(n, d);
    Multiple(n, -d);
    assert n * -d == -x;
  }

  lemma Multiple(n: int, d: int)
    requires n > 0
    ensures d > 0 ==> n * d >= n
  {
    if d > 0 { assert n * d == n + n * (d - 1) && n * (d - 1) >= 0; }
  }

  /** For a power of two, the mask gives the remainder. */
  lemma {:induction false} MaskIsRemainder(h: nat, n: nat)
    requires PowerOfTwo(n)
    ensures BitAnd(h, n - 1) == h % n
    decreases n
  {
    if n > 1 {
      MaskIsRemainder(h / 2, n / 2);
      HalfRemainder(h, n / 2);
      assert (n - 1) / 2 == n / 2 - 1 && (n - 1) % 2 == 1;
    }
  }

  lemma InitialPower()
    ensures PowerOfTwo(INIT_SIZE)
  {
    assert PowerOfTwo(8);
    assert PowerOfTwo(32);
  }

  // ---------------------------------------------------------------- probing

  /** The slot after `d` steps down from `h`. */
  function Probe(h: nat, d: nat, size: nat): (i: nat)
    requires h < size && d < size
    ensures i < size
  {
    if d <= h then h - d else h - d + size
  }

  /** The number of steps from `h` down to `i`. */
  function Steps(h: nat, i: nat, size: nat): (d: nat)
    requires h < size && i < size
    ensures d < size && Probe(h, d, size) == i
    ensures forall e :: 0 <= e < size && Probe(h, e, size) == i ==> e == d
  {
    if i <= h then h - i else h - i + size
  }

  /** Every slot on the way from `h` to its `d`th successor is taken. */
  predicate Taken(s: Slots, h: nat, d: nat)
    requires h < |s| && d <= |s|
  {
    forall e :: 0 <= e < d ==> s[Probe(h, e, |s|)] != null
  }

  /** Every entry is found from its home slot without meeting an empty one. */
  ghost predicate Reachable(s: Slots, hash: string -> nat) {
    forall i :: 0 <= i < |s| && s[i] != null ==>
      var h := hash(s[i].name) % |s|; Taken(s, h, Steps(h, i, |s|))
  }

  /** The slots hold exactly the entries of `m`, each once and under its name. */
  ghost predicate Holds(s: Slots, m: map<string, Named>) {
    && (forall i :: 0 <= i < |s| && s[i] != null ==> s[i].name in m && m[s[i].name] == s[i])
    && (forall i, j :: 0 <= i < |s| && 0 <= j < |s| && s[i] != null && s[j] != null && s[i].name == s[j].name ==> i == j)
    && (forall k :: k in m ==> m[k].name == k && m[k] in s)
  }

  function Count(s: Slots): (n: nat)
    ensures n <= |s|
  {
    if s == [] then 0 else Count(s[..|s| - 1]) + (if s[|s| - 1] != null then 1 else 0)
  }

  lemma {:induction false} CountPut(s: Slots, i: nat, x: Named)
    requires i < |s| && s[i] == null
    ensures Count(s[i := x]) == Count(s) + 1
    decreases |s|
  {
    var n := |s| - 1;
    if i == n {
      assert s[i := x][..n] == s[..n];
    } else {
      assert s[i := x][..n] == s[..n][i := x];
      CountPut(s[..n], i, x);
    }
  }

  lemma {:induction false} EmptySlot(s: Slots) returns (i: nat)
    requires Count(s) < |s|
    ensures i < |s| && s[i] == null
    decreases |s|
  {
    if s[|s| - 1] == null { i := |s| - 1; } else { i := EmptySlot(s[..|s| - 1]); }
  }

  lemma {:induction false} CountEmpty(s: Slots)
    requires forall i :: 0 <= i < |s| ==> s[i] == null
    ensures Count(s) == 0
    decreases |s|
  {
    if s != [] { CountEmpty(s[..|s| - 1]); }
  }

  /** An empty slot on the way from the home slot of a name means that the name is not in the table. */
  lemma NotFound(s: Slots, hash: string -> nat, m: map<string, Named>, name: string, d: nat)
    requires |s| > 0 && Reachable(s, hash) && Holds(s, m) && d < |s|
    requires var h := hash(name) % |s|;
             && s[Probe(h, d, |s|)] == null
             && forall e :: 0 <= e < d ==> s[Probe(h, e, |s|)] != null && s[Probe(h, e, |s|)].name != name
    ensures name !in m
  {
  }

  /** A new entry in the first empty slot from its home slot. */
  lemma PutEntry(s: Slots, hash: string -> nat, m: map<string, Named>, x: Named, d: nat)
    requires |s| > 0 && Reachable(s, hash) && Holds(s, m) && d < |s| && x.name !in m
    requires var h := hash(x.name) % |s|; s[Probe(h, d, |s|)] == null && Taken(s, h, d)
    ensures var s' := s[Probe(hash(x.name) % |s|, d, |s|) := x];
            Reachable(s', hash) && Holds(s', m[x.name := x]) && Count(s') == Count(s) + 1
  {
    var h := hash(x.name) % |s|;
    var p := Probe(h, d, |s|);
    var s' := s[p := x];
    CountPut(s, p, x);
    forall i | 0 <= i < |s'| && s'[i] != null
      ensures var g := hash(s'[i].name) % |s'|; Taken(s', g, Steps(g, i, |s'|))
    {
      if i == p { assert Steps(h, p, |s|) == d; } else { assert Taken(s, hash(s[i].name) % |s|, Steps(hash(s[i].name) % |s|, i, |s|)); }
    }
    var m' := m[x.name := x];
    forall k | k in m' ensures m'[k].name == k && m'[k] in s' {
      if k == x.name {
        assert s'[p] == x;
      } else {
        var i :| 0 <= i < |s| && s[i] == m[k];
        assert s'[i] == m[k];
      }
    }
  }

  class HashTable {
    const hash: string -> nat
    /** Length 0 stands for a table that has not been allocated; the length is a power of two. */
    var v: array<Named?>
    var used: nat
    var usedLim: nat
    ghost var contents: map<string, Named>

    ghost predicate Valid()
      reads this, v
    {
      && Reachable(v[..], hash) && Holds(v[..], contents)
      && used == Count(v[..]) <= usedLim && 2 * usedLim == v.Length
      && (v.Length > 0 ==> v.Length >= INIT_SIZE && PowerOfTwo(v.Length))
    }

    constructor (hash: string -> nat)
      ensures Valid() && contents == map[] && this.hash == hash
    {
      this.hash := hash;
      v := new Named?[0];
      used, usedLim, contents := 0, 0, map[];
    }

    /** The probe of lookup: the entry of that name, or else the empty slot where it belongs. */
    method Find(name: string) returns (i: nat, ghost d: nat)
      requires Valid() && v.Length > 0
      ensures d < v.Length && i == Probe(hash(name) % v.Length, d, v.Length) && Taken(v[..], hash(name) % v.Length, d)
      ensures v[i] == null ==> name !in contents
      ensures v[i] != null ==> name in contents && v[i] == contents[name]
    {
      var size := v.Length;
      var h := BitAnd(hash(name), size - 1);
      MaskIsRemainder(hash(name), size);
      i, d := h, 0;
      ghost var j := EmptySlot(v[..]);
      ghost var limit := Steps(h, j, size);
      while v[i] != null && v[i].name != name
        invariant d <= limit < size && i == Probe(h, d, size)
        invariant forall e :: 0 <= e < d ==> v[Probe(h, e, size)] != null && v[Probe(h, e, size)].name != name
        decreases limit - d
      {
        i := if i == 0 then size - 1 else i - 1;
        d := d + 1;
      }
      if v[i] == null { NotFound(v[..], hash, contents, name, d); }
    }

    /** Twice as many slots, with every entry probed for again. */
    method Rehash() returns (ok: bool)
      requires Valid() && v.Length > 0
      modifies this`v, this`usedLim
      ensures Valid() && contents == old(contents) && used == old(used)
      ensures if ok then fresh(v) && v.Length == 2 * old(v.Length) else v == old(v)
    {
      hide Count, Reachable, Holds, Moved;
      assert 2 * v.Length / 2 == v.Length;
      ghost var s := v[..];
      ok := *;
      if !ok { return; }
      var newV := new Named?[2 * v.Length];
      forall i | 0 <= i < newV.Length { newV[i] := null; }
      NothingReachable(newV[..], hash);
      CountEmpty(newV[..]);
      ghost var moved: map<string, Named> := map[];
      var i := 0;
      PrefixCount(s, 0);
      while i < v.Length
        invariant v == old(v) && v[..] == s && usedLim == old(usedLim)
        invariant 0 <= i <= v.Length && fresh(newV) && newV.Length == 2 * v.Length
        invariant Reachable(newV[..], hash) && Holds(newV[..], moved)
        invariant Count(newV[..]) == Count(s[..i]) <= i
        invariant Moved(s, i, contents, moved) && Holds(s, contents)
      {
        PrefixCount(s, i);
        MovedStep(s, i, contents, moved);
        if v[i] != null {
          MoveEntry(newV, hash, v[i], moved);
          moved := moved[v[i].name := v[i]];
        }
        i := i + 1;
      }
      AllMoved(s, contents, moved);
      assert s[..i] == s;
      v := newV;
      usedLim := newV.Length / 2;
    }

    /** The first array. */
    method Allocate() returns (ok: bool)
      requires Valid() && v.Length == 0
      modifies this`v, this`usedLim
      ensures Valid() && contents == old(contents) && used == old(used)
      ensures if ok then fresh(v) && v.Length == INIT_SIZE && contents == map[] && used == 0 else v == old(v)
    {
      ok := *;
      if !ok { return; }
      EmptyTable(v[..], contents);
      v := new Named?[INIT_SIZE];
      forall i | 0 <= i < v.Length { v[i] := null; }
      usedLim := INIT_SIZE / 2;
      CountEmpty(v[..]);
      NothingReachable(v[..], hash);
      InitialPower();
    }

    /** A new entry in an empty slot. */
    method Create(name: string, i: nat, ghost d: nat) returns (r: Named?)
      requires Valid() && used < usedLim && name !in contents
      requires d < v.Length && i == Probe(hash(name) % v.Length, d, v.Length) && Taken(v[..], hash(name) % v.Length, d) && v[i] == null
      modifies this`used, this`contents, v
      ensures Valid()
      ensures if r == null then contents == old(contents) else fresh(r) && r.name == name && contents == old(contents)[name := r]
    {
      hide Count, Reachable, Holds;
      var ok: bool := *;
      if !ok { return null; }
      r := new Named(name);
      ghost var before := v[..];
      PutEntry(v[..], hash, contents, r, d);
      v[i] := r;
      assert v[..] == before[i := r];
      used := used + 1;
      contents := contents[name := r];
    }

    /** lookup: the entry of a name, which is created if wanted and if memory allows. Entries never change or move. */
    method Lookup(name: string, create: bool) returns (r: Named?)
      requires Valid()
      modifies this, v
      ensures Valid() && (v == old(v) || fresh(v))
      ensures name in old(contents) ==> r == old(contents)[name] && contents == old(contents)
      ensures name !in old(contents) && r == null ==> contents == old(contents)
      ensures name !in old(contents) && r != null ==> create && fresh(r) && r.name == name && contents == old(contents)[name := r]
    {
      hide Count, Reachable, Holds;
      var i: nat;
      ghost var d: nat;
      if v.Length == 0 {
        EmptyTable(v[..], contents);
        if !create { return null; }
        var ok := Allocate();
        if !ok { return null; }
        MaskIsRemainder(hash(name), v.Length);
        i, d := FindEmpty(v, BitAnd(hash(name), v.Length - 1));
      } else {
        i, d := Find(name);
        if v[i] != null { return v[i]; }
        if !create { return null; }
        if used == usedLim {
          var ok := Rehash();
          if !ok { return null; }
          MaskIsRemainder(hash(name), v.Length);
          i, d := FindEmpty(v, BitAnd(hash(name), v.Length - 1));
        }
      }
      r := Create(name, i, d);
    }
  }

  lemma EmptyTable(s: Slots, m: map<string, Named>)
    requires Holds(s, m) && s == []
    ensures m == map[] && Count(s) == 0
  {
  }

  /** The first empty slot from `h` downward. */
  method FindEmpty(a: array<Named?>, h: nat) returns (j: nat, ghost d: nat)
    requires h < a.Length && Count(a[..]) < a.Length
    ensures d < a.Length && j == Probe(h, d, a.Length) && a[j] == null && Taken(a[..], h, d)
  {
    j, d := h, 0;
    ghost var e := EmptySlot(a[..]);
    ghost var limit := Steps(h, e, a.Length);
    while a[j] != null
      invariant d <= limit < a.Length && j == Probe(h, d, a.Length) && Taken(a[..], h, d)
      decreases limit - d
    {
      j := if j == 0 then a.Length - 1 else j - 1;
      d := d + 1;
    }
  }

  /** One entry goes into the first empty slot from its home slot. */
  method MoveEntry(a: array<Named?>, hash: string -> nat, x: Named, ghost m: map<string, Named>)
    requires Reachable(a[..], hash) && Holds(a[..], m) && x.name !in m && Count(a[..]) < a.Length && PowerOfTwo(a.Length)
    modifies a
    ensures Reachable(a[..], hash) && Holds(a[..], m[x.name := x]) && Count(a[..]) == Count(old(a[..])) + 1
  {
    hide Count, Reachable, Holds;
    MaskIsRemainder(hash(x.name), a.Length);
    var j, d := FindEmpty(a, BitAnd(hash(x.name), a.Length - 1));
    PutEntry(a[..], hash, m, x, d);
    ghost var before := a[..];
    a[j] := x;
    assert a[..] == before[j := x];
  }

  lemma NothingReachable(s: Slots, hash: string -> nat)
    requires forall i :: 0 <= i < |s| ==> s[i] == null
    ensures Reachable(s, hash) && Holds(s, map[]) && forall t: Slots, m :: Moved(t, 0, m, map[])
  {
  }

  lemma PrefixCount(s: Slots, i: nat)
    requires i <= |s|
    ensures Count(s[..0]) == 0
    ensures i < |s| ==> Count(s[..i + 1]) == Count(s[..i]) + (if s[i] != null then 1 else 0)
    ensures Count(s[..i]) <= i
  {
    if i < |s| { assert s[..i + 1][..i] == s[..i]; }
  }

  /** `moved` are the entries of the first `i` slots. */
  ghost predicate Moved(s: Slots, i: nat, m: map<string, Named>, moved: map<string, Named>)
    requires i <= |s|
  {
    && (forall k :: k in moved ==> k in m && moved[k] == m[k] && moved[k] in s[..i])
    && (forall j :: 0 <= j < i && s[j] != null ==> s[j].name in moved)
  }

  lemma MovedStep(s: Slots, i: nat, m: map<string, Named>, moved: map<string, Named>)
    requires i < |s| && Holds(s, m) && Moved(s, i, m, moved)
    ensures s[i] != null ==> s[i].name !in moved && Moved(s, i + 1, m, moved[s[i].name := s[i]])
    ensures s[i] == null ==> Moved(s, i + 1, m, moved)
  {
    assert s[..i + 1] == s[..i] + [s[i]];
    assert forall j :: 0 <= j < i ==> s[..i][j] == s[j];
  }

  lemma AllMoved(s: Slots, m: map<string, Named>, moved: map<string, Named>)
    requires Holds(s, m) && Moved(s, |s|, m, moved)
    ensures moved == m
  {
    forall k | k in m ensures k in moved {
      var j :| 0 <= j < |s| && s[j] == m[k];
      assert s[j].name == k;
    }
  }
}
