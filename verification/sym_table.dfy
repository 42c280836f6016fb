/** The loader's two symbol maps.  `symtable` is a
    `std::map<std::string, uint64_t>`, kept here as an association list
    sorted by `std::string` order; `tracer_symbols` is the
    `std::map<uint64_t, std::string>` built from it by `emplace` in key
    order. */
module SymTable {
  import opened Common

  /** `std::string` order on names: bytes compare as `unsigned char` and a
      proper prefix comes first. */
  predicate LexLt(a: seq<byte>, b: seq<byte>)
    decreases |a|
  {
    if a == [] then b != []
    else b != [] && (a[0] < b[0] || (a[0] == b[0] && LexLt(a[1..], b[1..])))
  }

  lemma {:induction false} LexIrreflexive(a: seq<byte>)
    ensures !LexLt(a, a)
    decreases |a|
  {
    if a != [] {
      LexIrreflexive(a[1..]);
    }
  }

  lemma {:induction false} LexTransitive(a: seq<byte>, b: seq<byte>, c: seq<byte>)
    requires LexLt(a, b) && LexLt(b, c)
    ensures LexLt(a, c)
    decreases |a|
  {
    if a != [] && a[0] == b[0] && b[0] == c[0] {
      LexTransitive(a[1..], b[1..], c[1..]);
    }
  }

  lemma {:induction false} LexTotal(a: seq<byte>, b: seq<byte>)
    ensures a == b || LexLt(a, b) || LexLt(b, a)
    decreases |a|
  {
    if a != [] && b != [] && a[0] == b[0] {
      LexTotal(a[1..], b[1..]);
      if a[1..] == b[1..] {
        assert a == [a[0]] + a[1..] && b == [b[0]] + b[1..];
      }
    }
  }

  lemma LexAsymmetric(a: seq<byte>, b: seq<byte>)
    requires LexLt(a, b)
    ensures !LexLt(b, a) && a != b
  {
    LexIrreflexive(a);
    if LexLt(b, a) {
      LexTransitive(a, b, a);
    }
  }

  type Entry = (seq<byte>, nat)

  /** Keys strictly increase, so each name occurs once. */
  predicate Sorted(t: seq<Entry>) {
    forall i, j :: 0 <= i < j < |t| ==> LexLt(t[i].0, t[j].0)
  }

  function Keys(t: seq<Entry>): set<seq<byte>> {
    set i | 0 <= i < |t| :: t[i].0
  }

  /** `symtable.find(name)`. */
  function Lookup(t: seq<Entry>, name: seq<byte>): (r: Option<nat>)
    ensures r.Some? <==> name in Keys(t)
    ensures r.Some? ==> (name, r.value) in t
  {
    if t == [] then None
    else if t[0].0 == name then Some(t[0].1)
    else
      var r := Lookup(t[1..], name);
      assert Keys(t) == {t[0].0} + Keys(t[1..]) by {
        forall k | k in Keys(t)
          ensures k in {t[0].0} + Keys(t[1..])
        {
          var i :| 0 <= i < |t| && t[i].0 == k;
          if i > 0 {
            assert t[1..][i - 1] == t[i];
          }
        }
      }
      r
  }

  /** In a sorted table the entry found for a name is its only entry. */
  lemma LookupUnique(t: seq<Entry>, name: seq<byte>, v: nat)
    requires Sorted(t) && (name, v) in t
    ensures Lookup(t, name) == Some(v)
  {
    var r := Lookup(t, name);
    var i :| 0 <= i < |t| && t[i] == (name, v);
    var j :| 0 <= j < |t| && t[j] == (name, r.value);
    if i < j {
      LexIrreflexive(name);
    } else if j < i {
      LexIrreflexive(name);
    }
  }

  lemma KeysCons(e: Entry, t: seq<Entry>)
    ensures Keys([e] + t) == {e.0} + Keys(t)
  {
    var t' := [e] + t;
    forall k | k in Keys(t')
      ensures k in {e.0} + Keys(t)
    {
      var i :| 0 <= i < |t'| && t'[i].0 == k;
      if i > 0 {
        assert t'[i] == t[i - 1];
      }
    }
    forall k | k in Keys(t)
      ensures k in Keys(t')
    {
      var i :| 0 <= i < |t| && t[i].0 == k;
      assert t'[i + 1] == t[i];
    }
    assert t'[0] == e;
  }

  /** `symtable[name] = value`. */
  function Insert(t: seq<Entry>, name: seq<byte>, value: nat): (t': seq<Entry>)
    ensures Keys(t') == Keys(t) + {name}
  {
    if t == [] then
      KeysCons((name, value), []);
      assert [(name, value)] + [] == [(name, value)];
      [(name, value)]
    else
      KeysCons(t[0], t[1..]);
      assert [t[0]] + t[1..] == t;
      if t[0].0 == name then
        KeysCons((name, value), t[1..]);
        [(name, value)] + t[1..]
      else if LexLt(name, t[0].0) then
        KeysCons((name, value), t);
        [(name, value)] + t
      else
        var rest := Insert(t[1..], name, value);
        KeysCons(t[0], rest);
        [t[0]] + rest
  }

  /** Every key of the table lies strictly above `lo`. */
  predicate Above(t: seq<Entry>, lo: seq<byte>) {
    forall i :: 0 <= i < |t| ==> LexLt(lo, t[i].0)
  }

  /** A table is sorted exactly when its tail is sorted and lies above its
      first key. */
  lemma SortedCons(e: Entry, t: seq<Entry>)
    ensures Sorted([e] + t) <==> Sorted(t) && Above(t, e.0)
  {
    var t' := [e] + t;
    if Sorted(t') {
      forall i, j | 0 <= i < j < |t|
        ensures LexLt(t[i].0, t[j].0)
      {
        assert t'[i + 1] == t[i] && t'[j + 1] == t[j];
      }
      forall i | 0 <= i < |t|
        ensures LexLt(e.0, t[i].0)
      {
        assert t'[0] == e && t'[i + 1] == t[i];
      }
    }
    if Sorted(t) && Above(t, e.0) {
      forall i, j | 0 <= i < j < |t'|
        ensures LexLt(t'[i].0, t'[j].0)
      {
        assert t'[j] == t[j - 1];
        if i > 0 {
          assert t'[i] == t[i - 1];
        }
      }
    }
  }

  /** A bound below the first key and the tail bounds the whole table. */
  lemma AboveCons(e: Entry, t: seq<Entry>, lo: seq<byte>)
    ensures Above([e] + t, lo) <==> LexLt(lo, e.0) && Above(t, lo)
  {
    var t' := [e] + t;
    assert t'[0] == e;
    assert forall i :: 0 <= i < |t| ==> t'[i + 1] == t[i];
  }

  /** Inserting a name above a bound keeps the table above it. */
  lemma {:induction false} InsertAbove(t: seq<Entry>, name: seq<byte>, value: nat, lo: seq<byte>)
    requires Above(t, lo) && LexLt(lo, name)
    ensures Above(Insert(t, name, value), lo)
    decreases |t|
  {
    if t != [] {
      assert t == [t[0]] + t[1..];
      AboveCons(t[0], t[1..], lo);
      if t[0].0 == name {
        AboveCons((name, value), t[1..], lo);
      } else if LexLt(name, t[0].0) {
        AboveCons((name, value), t, lo);
      } else {
        InsertAbove(t[1..], name, value, lo);
        AboveCons(t[0], Insert(t[1..], name, value), lo);
      }
    }
  }

  /** Inserting keeps the table sorted. */
  lemma {:induction false} InsertSorted(t: seq<Entry>, name: seq<byte>, value: nat)
    requires Sorted(t)
    ensures Sorted(Insert(t, name, value))
    decreases |t|
  {
    if t == [] {
      SortedCons((name, value), []);
    } else {
      assert t == [t[0]] + t[1..];
      SortedCons(t[0], t[1..]);
      if t[0].0 == name {
        SortedCons((name, value), t[1..]);
      } else if LexLt(name, t[0].0) {
        forall i | 0 <= i < |t|
          ensures LexLt(name, t[i].0)
        {
          if i > 0 {
            assert t[1..][i - 1] == t[i];
            LexTransitive(name, t[0].0, t[i].0);
          }
        }
        SortedCons((name, value), t);
      } else {
        LexTotal(name, t[0].0);
        InsertSorted(t[1..], name, value);
        InsertAbove(t[1..], name, value, t[0].0);
        SortedCons(t[0], Insert(t[1..], name, value));
      }
    }
  }

  /** Inserting binds `name` to `value` and leaves every other name's
      binding as it was. */
  lemma {:induction false} InsertLookup(t: seq<Entry>, name: seq<byte>, value: nat, other: seq<byte>)
    ensures Lookup(Insert(t, name, value), name) == Some(value)
    ensures other != name ==> Lookup(Insert(t, name, value), other) == Lookup(t, other)
  {
    if t == [] {
    } else if t[0].0 == name {
      assert ([(name, value)] + t[1..])[1..] == t[1..];
    } else if LexLt(name, t[0].0) {
      assert ([(name, value)] + t)[1..] == t;
    } else {
      InsertLookup(t[1..], name, value, other);
      assert ([t[0]] + Insert(t[1..], name, value))[1..] == Insert(t[1..], name, value);
    }
  }

  /** The table as the map it stands for. */
  function ToMap(t: seq<Entry>): (mp: map<seq<byte>, nat>)
    ensures mp.Keys == Keys(t)
    ensures forall k :: k in mp ==> Lookup(t, k) == Some(mp[k])
  {
    map k | k in Keys(t) :: Lookup(t, k).value
  }

  /** The sorted table implements `std::map` assignment. */
  lemma InsertIsMapUpdate(t: seq<Entry>, name: seq<byte>, value: nat)
    ensures ToMap(Insert(t, name, value)) == ToMap(t)[name := value]
  {
    var a := ToMap(Insert(t, name, value));
    var b := ToMap(t)[name := value];
    assert a.Keys == b.Keys;
    forall k | k in a
      ensures a[k] == b[k]
    {
      InsertLookup(t, name, value, k);
    }
  }

  /** `GetSymbolAddr(Symbol)`: the address bound to the name, or 0 when
      the name is unknown. */
  function GetSymbolAddr(t: seq<Entry>, name: seq<byte>): (a: nat)
    ensures name in ToMap(t) ==> a == ToMap(t)[name]
    ensures name !in ToMap(t) ==> a == 0
  {
    match Lookup(t, name)
    case Some(v) => v
    case None => 0
  }

  // ---------------------------------------------------------------------
  // tracer_symbols

  /** `tracer_symbols.emplace(addr, name)`: an address already present
      keeps its name. */
  function Emplace(tr: map<nat, seq<byte>>, addr: nat, name: seq<byte>): (tr': map<nat, seq<byte>>)
    ensures addr in tr ==> tr' == tr
    ensures addr !in tr ==> tr' == tr[addr := name]
  {
    if addr in tr then tr else tr[addr := name]
  }

  /** The `while` loop of `LoadElf` over `symtable`, in key order. */
  function EmplaceAll(t: seq<Entry>, tr: map<nat, seq<byte>>): map<nat, seq<byte>> {
    if t == [] then tr else EmplaceAll(t[1..], Emplace(tr, t[0].1, t[0].0))
  }

  function TracerSymbols(t: seq<Entry>): map<nat, seq<byte>> {
    EmplaceAll(t, map[])
  }

  function Addrs(t: seq<Entry>): set<nat> {
    set i | 0 <= i < |t| :: t[i].1
  }

  /** The name of the earliest entry bound to `addr`. */
  function FirstName(t: seq<Entry>, addr: nat): (n: seq<byte>)
    requires addr in Addrs(t)
    ensures (n, addr) in t
  {
    if t[0].1 == addr then t[0].0
    else
      assert addr in Addrs(t[1..]) by {
        var i :| 0 <= i < |t| && t[i].1 == addr;
        assert t[1..][i - 1] == t[i];
      }
      FirstName(t[1..], addr)
  }

  lemma AddrsTail(t: seq<Entry>)
    requires t != []
    ensures Addrs(t) == {t[0].1} + Addrs(t[1..])
  {
    forall a | a in Addrs(t)
      ensures a in {t[0].1} + Addrs(t[1..])
    {
      var i :| 0 <= i < |t| && t[i].1 == a;
      if i > 0 {
        assert t[1..][i - 1] == t[i];
      }
    }
  }

  /** The emplace loop keeps what it started with and gives every other
      address the first name bound to it. */
  lemma {:induction false} EmplaceAllSpec(t: seq<Entry>, tr: map<nat, seq<byte>>)
    ensures EmplaceAll(t, tr).Keys == tr.Keys + Addrs(t)
    ensures forall a :: a in tr ==> EmplaceAll(t, tr)[a] == tr[a]
    ensures forall a :: a in Addrs(t) && a !in tr ==> EmplaceAll(t, tr)[a] == FirstName(t, a)
  {
    if t != [] {
      var tr1 := Emplace(tr, t[0].1, t[0].0);
      EmplaceAllSpec(t[1..], tr1);
      AddrsTail(t);
      forall a | a in Addrs(t) && a !in tr
        ensures EmplaceAll(t, tr)[a] == FirstName(t, a)
      {
        if a != t[0].1 {
          assert a in Addrs(t[1..]);
        }
      }
    }
  }

  /** In a sorted table the first name bound to an address is the least
      one in `std::string` order. */
  lemma FirstNameLeast(t: seq<Entry>, addr: nat, i: nat)
    requires Sorted(t) && i < |t| && t[i].1 == addr
    ensures addr in Addrs(t)
    ensures FirstName(t, addr) == t[i].0 || LexLt(FirstName(t, addr), t[i].0)
    decreases |t|
  {
    if t[0].1 != addr {
      assert t[1..][i - 1] == t[i];
      assert Sorted(t[1..]) by {
        forall a, b | 0 <= a < b < |t[1..]|
          ensures LexLt(t[1..][a].0, t[1..][b].0)
        {
          assert t[1..][a] == t[a + 1] && t[1..][b] == t[b + 1];
        }
      }
      FirstNameLeast(t[1..], addr, i - 1);
    }
  }

  /** `tracer_symbols` inverts `symtable`: its addresses are exactly the
      symbol values, each name it holds is bound to its address in
      `symtable`, and among the names sharing an address it holds the
      least. */
  lemma TracerInvertsSymtable(t: seq<Entry>)
    requires Sorted(t)
    ensures TracerSymbols(t).Keys == Addrs(t)
    ensures forall a :: a in TracerSymbols(t) ==> (TracerSymbols(t)[a], a) in t
    ensures forall i :: 0 <= i < |t| ==>
      TracerSymbols(t)[t[i].1] == t[i].0 || LexLt(TracerSymbols(t)[t[i].1], t[i].0)
  {
    EmplaceAllSpec(t, map[]);
    forall i | 0 <= i < |t|
      ensures TracerSymbols(t)[t[i].1] == t[i].0 || LexLt(TracerSymbols(t)[t[i].1], t[i].0)
    {
      FirstNameLeast(t, t[i].1, i);
    }
  }
}
