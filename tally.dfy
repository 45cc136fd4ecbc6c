/** The tally records of an uploaded results file, the candidate reference
    list, and the transformation `processJsonData` applies to them: every
    record gets the ballot position of its candidate (or the sentinel
    'No encontrado'), and the list is then sorted in place by position with
    the unresolved records last. */
module Tally {

  /** A JSON scalar as the source sees it. Only its JavaScript truthiness is
      ever interpreted: `''`, `0` and `null`/`undefined` are falsy. */
  datatype Value = Str(s: string) | Num(n: int) | Null

  predicate Falsy(v: Value) {
    v == Str([]) || v == Num(0) || v == Null
  }

  /** One entry of the reference list: a candidate and its ballot position. */
  datatype Candidate = Candidate(name: string, position: int)

  /** One element of `resultados`; the fields other than `candidato` and
      `marcas` are carried along without being interpreted. */
  datatype RawRecord = RawRecord(candidato: string, marcas: Value, rest: map<string, Value>)

  /** The `posicion` a record receives: a ballot position, or the sentinel
      string 'No encontrado'. */
  datatype Posicion = At(p: int) | NoEncontrado

  datatype Resolved = Resolved(candidato: string, marcas: Value, rest: map<string, Value>, posicion: Posicion)

  /** The last entry of `refs` whose name is `name` sits at index `k`. */
  ghost predicate LastNamed(refs: seq<Candidate>, name: string, k: int) {
    0 <= k < |refs| && refs[k].name == name &&
    forall k' :: k < k' < |refs| ==> refs[k'].name != name
  }

  /** `new Map(candidates.map(c => [c.name, c.position]))`: the entries are
      set in list order, so a repeated name keeps its last position. */
  function Lookup(refs: seq<Candidate>): map<string, int>
  {
    if refs == [] then map[]
    else Lookup(refs[..|refs| - 1])[refs[|refs| - 1].name := refs[|refs| - 1].position]
  }

  /** A name is a key of the lookup exactly when some entry carries it. */
  lemma {:induction false} LookupKeys(refs: seq<Candidate>, name: string)
    ensures name in Lookup(refs) <==> exists k :: 0 <= k < |refs| && refs[k].name == name
  {
    if refs != [] {
      var init := refs[..|refs| - 1];
      LookupKeys(init, name);
      assert forall k :: 0 <= k < |init| ==> init[k] == refs[k];
    }
  }

  /** A repeated name keeps the position of its last entry. */
  lemma {:induction false} LookupLastWins(refs: seq<Candidate>, name: string, k: int)
    requires LastNamed(refs, name, k)
    ensures name in Lookup(refs) && Lookup(refs)[name] == refs[k].position
  {
    var init := refs[..|refs| - 1];
    if k < |refs| - 1 {
      assert refs[|refs| - 1].name != name;
      assert LastNamed(init, name, k);
      LookupLastWins(init, name, k);
    }
  }

  /** `candidatesMap.get(item.candidato) || 'No encontrado'`: a missing name
      and a position of 0 (falsy) both give the sentinel. */
  function PositionOf(lookup: map<string, int>, name: string): Posicion
  {
    if name in lookup && lookup[name] != 0 then At(lookup[name]) else NoEncontrado
  }

  /** `{ ...item, posicion: ... }` */
  function Resolve(lookup: map<string, int>, item: RawRecord): Resolved
  {
    Resolved(item.candidato, item.marcas, item.rest, PositionOf(lookup, item.candidato))
  }

  /** `jsonData.resultados.map(...)` */
  function ResolveAll(lookup: map<string, int>, items: seq<RawRecord>): seq<Resolved>
  {
    seq(|items|, i requires 0 <= i < |items| => Resolve(lookup, items[i]))
  }

  /** Resolution keeps every record and every field of it, and the position
      it assigns is the one the last reference entry of that name carries,
      unless there is none or it is 0. */
  lemma {:induction false} ResolutionAgainstReferences(refs: seq<Candidate>, items: seq<RawRecord>, i: int)
    requires 0 <= i < |items|
    ensures |ResolveAll(Lookup(refs), items)| == |items|
    ensures var r := ResolveAll(Lookup(refs), items)[i];
      r.candidato == items[i].candidato && r.marcas == items[i].marcas && r.rest == items[i].rest
    ensures var r := ResolveAll(Lookup(refs), items)[i];
      forall k :: LastNamed(refs, items[i].candidato, k) ==>
        r.posicion == (if refs[k].position != 0 then At(refs[k].position) else NoEncontrado)
    ensures var r := ResolveAll(Lookup(refs), items)[i];
      (forall k :: 0 <= k < |refs| ==> refs[k].name != items[i].candidato) ==> r.posicion == NoEncontrado
  {
    var name := items[i].candidato;
    LookupKeys(refs, name);
    forall k | LastNamed(refs, name, k)
      ensures Lookup(refs)[name] == refs[k].position
    {
      LookupLastWins(refs, name, k);
    }
  }

  /** The order the comparator imposes, read as a key (unresolved, position):
      resolved records by ascending position, every unresolved record after
      every resolved one, and unresolved records all equivalent. */
  predicate KeyLe(a: Resolved, b: Resolved) {
    b.posicion.NoEncontrado? || (a.posicion.At? && a.posicion.p <= b.posicion.p)
  }

  predicate Sorted(s: seq<Resolved>) {
    forall i, j :: 0 <= i < j < |s| ==> KeyLe(s[i], s[j])
  }

  /** What sortedness means for the exported data: resolved positions never
      decrease, and no resolved record follows an unresolved one. */
  lemma SortedMeaning(s: seq<Resolved>, i: int, j: int)
    requires Sorted(s)
    requires 0 <= i < j < |s|
    ensures s[i].posicion.At? && s[j].posicion.At? ==> s[i].posicion.p <= s[j].posicion.p
    ensures s[i].posicion.NoEncontrado? ==> s[j].posicion.NoEncontrado?
  {
  }

  /** Exchanges the neighbours at `j - 1` and `j`. */
  method SwapDown(a: array<Resolved>, j: int)
    requires 0 < j < a.Length
    modifies a
    ensures a[..] == old(a[..])[j - 1 := old(a[j])][j := old(a[j - 1])]
    ensures multiset(a[..]) == multiset(old(a[..]))
  {
    a[j - 1], a[j] := a[j], a[j - 1];
  }

  /** One pass of insertion: moves `a[i]` down past the records that must
      come after it, so that the prefix up to `i` becomes sorted. */
  method InsertAt(a: array<Resolved>, i: int)
    requires 0 <= i < a.Length
    requires Sorted(a[..i])
    modifies a
    ensures Sorted(a[..i + 1])
    ensures a[i + 1..] == old(a[i + 1..])
    ensures multiset(a[..]) == multiset(old(a[..]))
    ensures Sorted(old(a[..i + 1])) ==> a[..] == old(a[..])
  {
    var j := i;
    while 0 < j && !KeyLe(a[j - 1], a[j])
      invariant 0 <= j <= i
      invariant forall p, q :: 0 <= p < q <= i && p != j && q != j ==> KeyLe(a[p], a[q])
      invariant forall q :: j < q <= i ==> KeyLe(a[j], a[q])
      invariant 0 < j < i ==> KeyLe(a[j - 1], a[j + 1])
      invariant a[i + 1..] == old(a[i + 1..])
      invariant multiset(a[..]) == multiset(old(a[..]))
      invariant j == i ==> a[..] == old(a[..])
      invariant j < i ==> !Sorted(old(a[..i + 1]))
    {
      if j == i {
        assert a[..i + 1][i - 1] == a[j - 1] && a[..i + 1][i] == a[j];
      }
      SwapDown(a, j);
      j := j - 1;
    }
  }

  /** The in-place `processedData.sort(...)`, as an insertion sort that swaps
      neighbours only when they are strictly out of order. The result is a
      sorted permutation, and a sorted array is left as it is, so sorting
      twice gives the same order as sorting once. */
  method SortByPosition(a: array<Resolved>)
    modifies a
    ensures Sorted(a[..])
    ensures multiset(a[..]) == multiset(old(a[..]))
    ensures Sorted(old(a[..])) ==> a[..] == old(a[..])
  {
    var i := 0;
    while i < a.Length
      invariant 0 <= i <= a.Length
      invariant Sorted(a[..i])
      invariant multiset(a[..]) == multiset(old(a[..]))
      invariant Sorted(old(a[..])) ==> a[..] == old(a[..])
    {
      ghost var before := a[..];
      InsertAt(a, i);
      if Sorted(old(a[..])) {
        assert before[..i + 1] == old(a[..])[..i + 1];
      }
      i := i + 1;
    }
    assert a[..a.Length] == a[..];
  }

  /** `processJsonData`: resolve every record against the reference list and
      sort the resolved list. */
  method ProcessJsonData(refs: seq<Candidate>, resultados: seq<RawRecord>) returns (processed: seq<Resolved>)
    ensures |processed| == |resultados|
    ensures multiset(processed) == multiset(ResolveAll(Lookup(refs), resultados))
    ensures Sorted(processed)
    ensures Sorted(ResolveAll(Lookup(refs), resultados)) ==> processed == ResolveAll(Lookup(refs), resultados)
  {
    var lookup := Lookup(refs);
    var resolved := ResolveAll(lookup, resultados);
    var a := new Resolved[|resolved|](i requires 0 <= i < |resolved| => resolved[i]);
    assert a[..] == resolved;
    SortByPosition(a);
    processed := a[..];
    assert |processed| == |multiset(processed)| == |multiset(resolved)| == |resolved|;
  }
}
