/** The resolver for kernel symbols: loading, address lookup and the lazily built name index. */
module Ksym {
  import opened Options
  import opened Search
  import opened Words
  import Hex

  datatype Ksym = Ksym(addr: nat, name: string)

  function Addr(s: Ksym): int { s.addr }

  /** The symbol of a line, unless its address is null or not a number. */
  function OfLine(tokens: seq<string>): seq<Ksym>
    requires |tokens| >= 3
  {
    var addr := Hex.Parse(tokens[0]);
    if addr.Some? && addr.value != 0 then [Ksym(addr.value, tokens[2])] else []
  }

  /** The symbols of a kallsyms file, given as lines of tokens: up to the first short line, without null addresses. */
  function Loaded(lines: seq<seq<string>>): seq<Ksym> {
    if lines == [] || |lines[0]| < 3 then [] else OfLine(lines[0]) + Loaded(lines[1..])
  }

  lemma {:induction false} LoadedStep(lines: seq<seq<string>>, n: nat)
    requires n < |lines| && |lines[n]| >= 3 && forall i :: 0 <= i < n ==> |lines[i]| >= 3
    ensures Loaded(lines[..n + 1]) == Loaded(lines[..n]) + OfLine(lines[n])
  {
    if n == 0 {
      assert Loaded(lines[..0]) == [] && Loaded(lines[..1][1..]) == [];
    } else {
      LoadedStep(lines[1..], n - 1);
      assert lines[..n + 1][1..] == lines[1..][..n] && lines[..n][1..] == lines[1..][..n - 1];
    }
  }

  /** Everything from the first short line on is ignored. */
  lemma {:induction false} LoadedStops(lines: seq<seq<string>>, n: nat)
    requires n <= |lines| && (n < |lines| ==> |lines[n]| < 3)
    requires forall i :: 0 <= i < n ==> |lines[i]| >= 3
    ensures Loaded(lines) == Loaded(lines[..n])
  {
    if n > 0 {
      LoadedStops(lines[1..], n - 1);
      assert lines[..n][1..] == lines[1..][..n - 1];
    }
  }

  /** The symbols that have an address. */
  function Addressed(syms: seq<Ksym>): seq<Ksym> {
    if syms == [] then [] else (if syms[0].addr != 0 then [syms[0]] else []) + Addressed(syms[1..])
  }

  /** A line of /proc/kallsyms: 16 digits, the type, the name, and perhaps the module. */
  ghost predicate Shows(line: seq<string>, s: Ksym) {
    |line| >= 3 && line[0] == Hex.Pad(Hex.Print(s.addr), 16) && line[2] == s.name
  }

  /** A file that shows symbols is loaded as these symbols, in order, without those whose address is hidden. */
  lemma {:induction false} ShownLoaded(lines: seq<seq<string>>, syms: seq<Ksym>)
    requires |lines| == |syms| && forall i :: 0 <= i < |syms| ==> syms[i].addr < WORD && Shows(lines[i], syms[i])
    ensures Loaded(lines) == Addressed(syms)
  {
    if syms != [] {
      Hex.RoundTrip(syms[0].addr, 16);
      assert Shows(lines[0], syms[0]);
      ShownLoaded(lines[1..], syms[1..]);
    }
  }

  method Load(lines: seq<seq<string>>) returns (syms: seq<Ksym>)
    ensures syms == Loaded(lines)
  {
    syms := [];
    var i := 0;
    while i < |lines|
      invariant 0 <= i <= |lines| && forall j :: 0 <= j < i ==> |lines[j]| >= 3
      invariant syms == Loaded(lines[..i])
    {
      var tokens := lines[i];
      if |tokens| < 3 {
        break;
      }
      LoadedStep(lines, i);
      var addr := Hex.Parse(tokens[0]);
      if addr.Some? && addr.value != 0 {
        syms := syms + [Ksym(addr.value, tokens[2])];
      }
      i := i + 1;
    }
    LoadedStops(lines, i);
  }

  // ---------------------------------------------------------------- a stable sort

  /** The symbols with address `a`, in order. */
  function At(s: seq<Ksym>, a: nat): seq<Ksym> {
    if s == [] then [] else (if s[0].addr == a then [s[0]] else []) + At(s[1..], a)
  }

  function InsertSym(s: seq<Ksym>, x: Ksym): (r: seq<Ksym>)
    ensures |r| == |s| + 1
  {
    if s == [] || x.addr <= s[0].addr then [x] + s else [s[0]] + InsertSym(s[1..], x)
  }

  function SortSyms(s: seq<Ksym>): (r: seq<Ksym>)
    ensures |r| == |s|
  {
    if s == [] then [] else InsertSym(SortSyms(s[1..]), s[0])
  }

  lemma {:induction false} InsertSymSorted(s: seq<Ksym>, x: Ksym)
    requires SortedBy(s, Addr)
    ensures SortedBy(InsertSym(s, x), Addr)
    ensures forall y :: y in InsertSym(s, x) <==> y in s || y == x
  {
    if s != [] && x.addr > s[0].addr {
      InsertSymSorted(s[1..], x);
      var rest := InsertSym(s[1..], x);
      assert s == [s[0]] + s[1..];
      forall j | 0 <= j < |rest| ensures Addr(s[0]) <= Addr(rest[j]) {
        assert rest[j] in rest;
      }
    }
  }

  lemma AtCons(x: Ksym, s: seq<Ksym>, a: nat)
    ensures At([x] + s, a) == (if x.addr == a then [x] else []) + At(s, a)
  {
    assert ([x] + s)[1..] == s;
  }

  lemma Exchange<T>(p: seq<T>, q: seq<T>, r: seq<T>)
    requires p == [] || q == []
    ensures p + (q + r) == q + (p + r)
  {
    assert [] + r == r;
  }

  lemma {:induction false} InsertSymAt(s: seq<Ksym>, x: Ksym, a: nat)
    ensures At(InsertSym(s, x), a) == (if x.addr == a then [x] else []) + At(s, a)
  {
    if s == [] || x.addr <= s[0].addr {
      AtCons(x, s, a);
    } else {
      var rest := InsertSym(s[1..], x);
      InsertSymAt(s[1..], x, a);
      AtCons(s[0], rest, a);
      Exchange(if s[0].addr == a then [s[0]] else [], if x.addr == a then [x] else [], At(s[1..], a));
    }
  }

  /** Sorting by address is a rearrangement that keeps the order of symbols with equal addresses. */
  lemma {:induction false} SortSymsStable(s: seq<Ksym>)
    ensures SortedBy(SortSyms(s), Addr)
    ensures forall a :: At(SortSyms(s), a) == At(s, a)
    ensures forall y :: y in SortSyms(s) <==> y in s
  {
    if s != [] {
      SortSymsStable(s[1..]);
      InsertSymSorted(SortSyms(s[1..]), s[0]);
      forall a ensures At(SortSyms(s), a) == At(s, a) {
        InsertSymAt(SortSyms(s[1..]), s[0], a);
      }
      assert s == [s[0]] + s[1..];
    }
  }

  // ---------------------------------------------------------------- the resolver

  /** The name index after the first `n` symbols: of several symbols with one name the last is kept. */
  function Index(syms: seq<Ksym>, n: nat): map<string, nat>
    requires n <= |syms|
  {
    if n == 0 then map[] else Index(syms, n - 1)[syms[n - 1].name := syms[n - 1].addr]
  }

  /** In a sorted list the index knows exactly the names, each with its greatest address. */
  lemma {:induction false} IndexGreatest(syms: seq<Ksym>, n: nat, name: string)
    requires n <= |syms| && SortedBy(syms, Addr)
    ensures name in Index(syms, n) <==> exists i :: 0 <= i < n && syms[i].name == name
    ensures name in Index(syms, n) ==>
      && (exists i :: 0 <= i < n && syms[i] == Ksym(Index(syms, n)[name], name))
      && forall i :: 0 <= i < n && syms[i].name == name ==> syms[i].addr <= Index(syms, n)[name]
  {
    if n > 0 {
      IndexGreatest(syms, n - 1, name);
      var last := syms[n - 1];
      if last.name == name {
        assert syms[n - 1] == Ksym(Index(syms, n)[name], name);
        forall i | 0 <= i < n && syms[i].name == name ensures syms[i].addr <= last.addr {
          assert i < n - 1 ==> Addr(syms[i]) <= Addr(syms[n - 1]);
        }
      } else if name in Index(syms, n - 1) {
        var i :| 0 <= i < n - 1 && syms[i] == Ksym(Index(syms, n - 1)[name], name);
        assert syms[i] == Ksym(Index(syms, n)[name], name);
      }
    }
  }

  class KSymResolver {
    const syms: seq<Ksym>
    var symToAddr: map<string, nat>

    /** The index is not built yet, or complete. */
    ghost predicate Valid()
      reads this
    {
      SortedBy(syms, Addr) && (symToAddr == map[] || symToAddr == Index(syms, |syms|))
    }

    constructor (lines: seq<seq<string>>)
      ensures Valid() && symToAddr == map[] && syms == SortSyms(Loaded(lines))
    {
      var loaded := Load(lines);
      SortSymsStable(loaded);
      syms := SortSyms(loaded);
      symToAddr := map[];
    }

    method EnsureSymToAddr()
      requires Valid()
      modifies this
      ensures Valid() && symToAddr == Index(syms, |syms|)
    {
      if |symToAddr| > 0 {
        return;
      }
      var i := 0;
      while i < |syms|
        invariant 0 <= i <= |syms| && symToAddr == Index(syms, i)
      {
        symToAddr := symToAddr[syms[i].name := syms[i].addr];
        i := i + 1;
      }
    }

    method FindKsym(addr: nat) returns (r: Option<Ksym>)
      requires Valid()
      ensures exists i :: IsAnswer(syms, addr, Addr, i) && r == if i.Some? then Some(syms[i.value]) else None
    {
      var idx := FindMatchOrLowerBoundByKey(syms, addr, Addr);
      r := if idx.Some? then Some(syms[idx.value]) else None;
    }

    /** The greatest address that was loaded under a name; variables are not in kallsyms. */
    method FindAddr(name: string, variable: bool) returns (r: seq<nat>)
      requires Valid()
      modifies this
      ensures Valid()
      ensures r == [] <==> variable || forall s :: s in syms ==> s.name != name
      ensures r != [] ==>
        |r| == 1 && Ksym(r[0], name) in syms && forall s :: s in syms && s.name == name ==> s.addr <= r[0]
    {
      if variable {
        return [];
      }
      EnsureSymToAddr();
      IndexGreatest(syms, |syms|, name);
      if name in symToAddr {
        r := [symToAddr[name]];
      } else {
        r := [];
      }
    }
  }

  /** Looking up the address of a symbol finds the first symbol at that address. */
  lemma FoundExactly(syms: seq<Ksym>, s: Ksym, r: Option<nat>)
    requires s in syms && IsAnswer(syms, s.addr, Addr, r)
    ensures r.Some? && syms[r.value].addr == s.addr && FirstOfRun(syms, Addr, r.value)
  {
    var k :| 0 <= k < |syms| && syms[k] == s;
    assert Addr(syms[k]) == s.addr;
  }

  lemma {:induction false} AtFirst(s: seq<Ksym>, i: nat)
    requires i < |s| && forall j :: 0 <= j < i ==> s[j].addr != s[i].addr
    ensures At(s, s[i].addr) != [] && At(s, s[i].addr)[0] == s[i]
  {
    if i > 0 {
      AtFirst(s[1..], i - 1);
    }
  }

  /**
   * For every kallsyms file: the address found for a name is the greatest one listed under that name, and
   * looking this address up leads to the symbol that the file lists first for it.
   */
  lemma NameLeadsToSymbol(lines: seq<seq<string>>, name: string, r: Option<nat>)
    requires name in Index(SortSyms(Loaded(lines)), |Loaded(lines)|)
    requires IsAnswer(SortSyms(Loaded(lines)), Index(SortSyms(Loaded(lines)), |Loaded(lines)|)[name], Addr, r)
    ensures
      var addr := Index(SortSyms(Loaded(lines)), |Loaded(lines)|)[name];
      && Ksym(addr, name) in Loaded(lines)
      && (forall s :: s in Loaded(lines) && s.name == name ==> s.addr <= addr)
      && r.Some? && SortSyms(Loaded(lines))[r.value].addr == addr
      && At(Loaded(lines), addr) != [] && SortSyms(Loaded(lines))[r.value] == At(Loaded(lines), addr)[0]
  {
    var loaded := Loaded(lines);
    var syms := SortSyms(loaded);
    SortSymsStable(loaded);
    IndexGreatest(syms, |syms|, name);
    var addr := Index(syms, |syms|)[name];
    assert Ksym(addr, name) in syms;
    FoundExactly(syms, Ksym(addr, name), r);
    forall j | 0 <= j < r.value ensures syms[j].addr != addr {
      assert Addr(syms[j]) != Addr(syms[r.value]);
    }
    AtFirst(syms, r.value);
  }
}
