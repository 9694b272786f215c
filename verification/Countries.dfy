/**
 The country table: a sentinel at position 0, the other countries after it in the order of
 their codes, and an index from code to position.
 */
module CountryTable {
  import opened Ranges

  datatype Countries = Countries(list: seq<Country>, indexByCode: map<string, nat>)

  type CountryPair = (string, string)

  const SENTINEL_CODE := "ZZ"
  const SENTINEL := Country(0, "ZZ", "Sentinel")

  // The order of codes

  predicate CodeLe(a: string, b: string)
  {
    if a == "" then true
    else if b == "" then false
    else a[0] < b[0] || (a[0] == b[0] && CodeLe(a[1..], b[1..]))
  }

  /** The first place where two codes differ decides, and a code goes before its extensions. */
  lemma {:induction false} CodeLeExact(a: string, b: string)
    ensures CodeLe(a, b) <==>
              a <= b || exists k :: 0 <= k < |a| && k < |b| && a[..k] == b[..k] && a[k] < b[k]
  {
    if a != "" && b != "" {
      var x, y := a[1..], b[1..];
      CodeLeExact(x, y);
      assert a == [a[0]] + x && b == [b[0]] + y;
      if a[0] == b[0] {
        assert x <= y <==> a <= b;
        if k :| 0 <= k < |x| && k < |y| && x[..k] == y[..k] && x[k] < y[k] {
          assert a[..k + 1] == [a[0]] + x[..k] && b[..k + 1] == [b[0]] + y[..k];
          assert a[k + 1] < b[k + 1];
        }
        if k :| 0 <= k < |a| && k < |b| && a[..k] == b[..k] && a[k] < b[k] {
          assert k > 0 && x[..k - 1] == a[..k][1..] && y[..k - 1] == b[..k][1..];
          assert x[k - 1] < y[k - 1];
        }
      } else if a[0] < b[0] {
        assert a[..0] == b[..0];
      } else {
        assert forall k :: 0 < k < |a| && k < |b| ==> a[..k][0] == a[0] && b[..k][0] == b[0];
      }
    }
  }

  lemma {:induction false} CodeLeTotal(a: string, b: string)
    ensures CodeLe(a, b) || CodeLe(b, a)
  {
    if a != "" && b != "" && a[0] == b[0] { CodeLeTotal(a[1..], b[1..]); }
  }

  lemma {:induction false} CodeLeTransitive(a: string, b: string, c: string)
    requires CodeLe(a, b) && CodeLe(b, c)
    ensures CodeLe(a, c)
  {
    if a != "" && a[0] == b[0] && b[0] == c[0] { CodeLeTransitive(a[1..], b[1..], c[1..]); }
  }

  lemma {:induction false} CodeLeAntisymmetric(a: string, b: string)
    requires CodeLe(a, b) && CodeLe(b, a)
    ensures a == b
  {
    if a != "" {
      CodeLeAntisymmetric(a[1..], b[1..]);
      assert a == [a[0]] + a[1..] && b == [b[0]] + b[1..];
    }
  }

  predicate InOrder(pairs: seq<CountryPair>)
  {
    forall i, j :: 0 <= i < j < |pairs| ==> CodeLe(pairs[i].0, pairs[j].0)
  }

  /** The pairs with a given code, in list order. */
  function WithCode(pairs: seq<CountryPair>, code: string): (r: seq<CountryPair>)
  {
    if pairs == [] then []
    else (if pairs[0].0 == code then [pairs[0]] else []) + WithCode(pairs[1..], code)
  }

  // The stable sort by code

  function Insert(p: CountryPair, pairs: seq<CountryPair>): seq<CountryPair>
  {
    if pairs == [] || CodeLe(p.0, pairs[0].0) then [p] + pairs
    else [pairs[0]] + Insert(p, pairs[1..])
  }

  function SortByCode(pairs: seq<CountryPair>): seq<CountryPair>
  {
    if pairs == [] then [] else Insert(pairs[0], SortByCode(pairs[1..]))
  }

  lemma {:induction false} InsertPermutes(p: CountryPair, pairs: seq<CountryPair>)
    ensures multiset(Insert(p, pairs)) == multiset{p} + multiset(pairs)
  {
    if pairs == [] || CodeLe(p.0, pairs[0].0) {
    } else {
      InsertPermutes(p, pairs[1..]);
      assert pairs == [pairs[0]] + pairs[1..];
    }
  }

  lemma InOrderCons(p: CountryPair, pairs: seq<CountryPair>)
    requires InOrder(pairs) && forall q :: q in pairs ==> CodeLe(p.0, q.0)
    ensures InOrder([p] + pairs)
  {
  }

  lemma {:induction false} InsertInOrder(p: CountryPair, pairs: seq<CountryPair>)
    requires InOrder(pairs)
    ensures InOrder(Insert(p, pairs))
  {
    if pairs == [] {
    } else if CodeLe(p.0, pairs[0].0) {
      CodeLeReflexive(pairs[0].0);
      forall q | q in pairs ensures CodeLe(p.0, q.0) { CodeLeTransitive(p.0, pairs[0].0, q.0); }
      InOrderCons(p, pairs);
    } else {
      CodeLeTotal(p.0, pairs[0].0);
      InsertInOrder(p, pairs[1..]);
      InsertPermutes(p, pairs[1..]);
      forall q | q in Insert(p, pairs[1..]) ensures CodeLe(pairs[0].0, q.0) {
        assert q in multiset(Insert(p, pairs[1..]));
      }
      InOrderCons(pairs[0], Insert(p, pairs[1..]));
    }
  }

  lemma WithCodeCons(p: CountryPair, pairs: seq<CountryPair>, code: string)
    ensures WithCode([p] + pairs, code) == (if p.0 == code then [p] else []) + WithCode(pairs, code)
  {
    assert ([p] + pairs)[1..] == pairs;
  }

  lemma {:induction false} InsertStable(p: CountryPair, pairs: seq<CountryPair>, code: string)
    ensures WithCode(Insert(p, pairs), code) == (if p.0 == code then [p] else []) + WithCode(pairs, code)
  {
    if pairs == [] || CodeLe(p.0, pairs[0].0) {
      WithCodeCons(p, pairs, code);
    } else {
      hide CodeLe, WithCode;
      CodeLeReflexive(p.0);
      InsertStable(p, pairs[1..], code);
      WithCodeCons(pairs[0], Insert(p, pairs[1..]), code);
      WithCodeCons(pairs[0], pairs[1..], code);
      assert pairs == [pairs[0]] + pairs[1..];
    }
  }

  lemma CodeLeReflexive(a: string)
    ensures CodeLe(a, a)
  {
    CodeLeTotal(a, a);
  }

  lemma {:induction false} SortIsSort(pairs: seq<CountryPair>)
    ensures InOrder(SortByCode(pairs))
    ensures multiset(SortByCode(pairs)) == multiset(pairs)
    ensures forall code :: WithCode(SortByCode(pairs), code) == WithCode(pairs, code)
  {
    if pairs != [] {
      var rest := SortByCode(pairs[1..]);
      SortIsSort(pairs[1..]);
      InsertInOrder(pairs[0], rest);
      InsertPermutes(pairs[0], rest);
      assert pairs == [pairs[0]] + pairs[1..];
      forall code ensures WithCode(SortByCode(pairs), code) == WithCode(pairs, code) {
        InsertStable(pairs[0], rest, code);
      }
    }
  }

  lemma {:induction false} WithCodeMember(pairs: seq<CountryPair>, p: CountryPair)
    ensures p in pairs <==> p in WithCode(pairs, p.0)
  {
    if pairs != [] {
      WithCodeMember(pairs[1..], p);
      assert pairs == [pairs[0]] + pairs[1..];
    }
  }

  lemma FirstWithCode(pairs: seq<CountryPair>)
    requires pairs != []
    ensures WithCode(pairs, pairs[0].0) == [pairs[0]] + WithCode(pairs[1..], pairs[0].0)
  {
  }

  lemma {:induction false} WithCodeConcat(x: seq<CountryPair>, y: seq<CountryPair>, code: string)
    ensures WithCode(x + y, code) == WithCode(x, code) + WithCode(y, code)
  {
    if x == [] {
      assert x + y == y;
    } else {
      hide WithCode;
      WithCodeConcat(x[1..], y, code);
      WithCodeCons(x[0], x[1..], code);
      WithCodeCons(x[0], x[1..] + y, code);
      assert x == [x[0]] + x[1..] && x + y == [x[0]] + (x[1..] + y);
      var first, left, right := if x[0].0 == code then [x[0]] else [], WithCode(x[1..], code), WithCode(y, code);
      assert first + (left + right) == (first + left) + right;
    }
  }

  lemma {:induction false} WithCodeNone(pairs: seq<CountryPair>, code: string)
    requires forall i :: 0 <= i < |pairs| ==> pairs[i].0 != code
    ensures WithCode(pairs, code) == []
  {
    if pairs != [] { WithCodeNone(pairs[1..], code); }
  }

  lemma WithCodeLast(pairs: seq<CountryPair>, code: string, k: nat)
    requires k < |pairs| && pairs[k].0 == code && forall j :: k < j < |pairs| ==> pairs[j].0 != code
    ensures var w := WithCode(pairs, code);
            w != [] && w[|w| - 1] == pairs[k]
  {
    assert pairs == pairs[..k] + ([pairs[k]] + pairs[k + 1..]);
    WithCodeConcat(pairs[..k], [pairs[k]] + pairs[k + 1..], code);
    WithCodeCons(pairs[k], pairs[k + 1..], code);
    WithCodeNone(pairs[k + 1..], code);
  }

  /** There is only one list in order that keeps each code's pairs as they were, so any stable sort gives it. */
  lemma {:induction false} StableSortUnique(a: seq<CountryPair>, b: seq<CountryPair>)
    requires InOrder(a) && InOrder(b)
    requires forall code :: WithCode(a, code) == WithCode(b, code)
    ensures a == b
  {
    if a != [] {
      WithCodeMember(a, a[0]);
      WithCodeMember(b, a[0]);
      assert a[0] in b;
      WithCodeMember(b, b[0]);
      WithCodeMember(a, b[0]);
      assert b[0] in a;
      CodeLeReflexive(a[0].0);
      CodeLeAntisymmetric(a[0].0, b[0].0);
      FirstWithCode(a);
      FirstWithCode(b);
      assert a[0] == WithCode(a, a[0].0)[0] == b[0];
      forall code ensures WithCode(a[1..], code) == WithCode(b[1..], code) {
        assert WithCode(a, code) == WithCode(b, code);
        var front := if a[0].0 == code then [a[0]] else [];
        assert (front + WithCode(a[1..], code))[|front|..] == WithCode(a[1..], code);
        assert (front + WithCode(b[1..], code))[|front|..] == WithCode(b[1..], code);
      }
      StableSortUnique(a[1..], b[1..]);
      assert a == [a[0]] + a[1..] && b == [b[0]] + b[1..];
    } else if b != [] {
      WithCodeMember(b, b[0]);
      WithCodeMember(a, b[0]);
    }
  }

  // Building the table

  /** The position of the first pair with the code, or the length if there is none. */
  function FirstIndex(pairs: seq<CountryPair>, code: string): (i: nat)
    ensures i <= |pairs| && (i < |pairs| ==> pairs[i].0 == code)
    ensures forall j :: 0 <= j < i ==> pairs[j].0 != code
  {
    if pairs == [] || pairs[0].0 == code then 0 else 1 + FirstIndex(pairs[1..], code)
  }

  function WithoutSentinel(pairs: seq<CountryPair>): seq<CountryPair>
  {
    var i := FirstIndex(pairs, SENTINEL_CODE);
    if i < |pairs| then pairs[..i] + pairs[i + 1..] else pairs
  }

  /** Later entries win, as in a map collected from pairs. */
  function IndexByCode(list: seq<Country>): map<string, nat>
  {
    if list == [] then map[]
    else
      var last := list[|list| - 1];
      IndexByCode(list[..|list| - 1])[last.iso3166 := last.index]
  }

  function FromList(list: seq<Country>): Countries
  {
    Countries(list, IndexByCode(list))
  }

  function Numbered(pairs: seq<CountryPair>): (r: seq<Country>)
    ensures |r| == |pairs|
    ensures forall i :: 0 <= i < |r| ==> r[i] == Country(i + 1, pairs[i].0, pairs[i].1)
  {
    seq(|pairs|, i requires 0 <= i < |pairs| => Country(i + 1, pairs[i].0, pairs[i].1))
  }

  function NewCountries(pairs: seq<CountryPair>): Countries
  {
    FromList([SENTINEL] + Numbered(SortByCode(WithoutSentinel(pairs))))
  }

  /** The list of pairs the generated source code carries. */
  function Emit(c: Countries): (r: seq<CountryPair>)
    ensures |r| == |c.list|
    ensures forall i :: 0 <= i < |r| ==> r[i] == (c.list[i].iso3166, c.list[i].name)
  {
    seq(|c.list|, i requires 0 <= i < |c.list| => (c.list[i].iso3166, c.list[i].name))
  }

  /** Position is index, the sentinel comes first, and the index gives each code its last position. */
  predicate Consistent(c: Countries)
  {
    && c.list != [] && c.list[0] == SENTINEL
    && (forall i :: 0 <= i < |c.list| ==> c.list[i].index == i)
    && c.indexByCode == IndexByCode(c.list)
  }

  lemma {:induction false} IndexByCodeIsLast(list: seq<Country>, code: string)
    requires forall i :: 0 <= i < |list| ==> list[i].index == i
    ensures code in IndexByCode(list) <==> exists i :: 0 <= i < |list| && list[i].iso3166 == code
    ensures code in IndexByCode(list) ==>
              var k := IndexByCode(list)[code];
              k < |list| && list[k].iso3166 == code && forall j :: k < j < |list| ==> list[j].iso3166 != code
  {
    if list != [] {
      var init := list[..|list| - 1];
      IndexByCodeIsLast(init, code);
      if list[|list| - 1].iso3166 != code {
        forall i | 0 <= i < |list| && list[i].iso3166 == code ensures init[i].iso3166 == code {
        }
      }
    }
  }

  /** The first sentinel pair goes and nothing else does; the pairs of each code stay in their order. */
  lemma WithoutSentinelKeeps(pairs: seq<CountryPair>, code: string)
    ensures var before, after := WithCode(pairs, code), WithCode(WithoutSentinel(pairs), code);
            if code == SENTINEL_CODE && before != [] then after == before[1..] else after == before
  {
    hide WithCode;
    var i := FirstIndex(pairs, SENTINEL_CODE);
    if i < |pairs| {
      var rest := [pairs[i]] + pairs[i + 1..];
      assert pairs == pairs[..i] + rest;
      WithCodeConcat(pairs[..i], rest, code);
      WithCodeConcat(pairs[..i], pairs[i + 1..], code);
      WithCodeCons(pairs[i], pairs[i + 1..], code);
      if code == SENTINEL_CODE { WithCodeNone(pairs[..i], code); }
    } else if code == SENTINEL_CODE {
      WithCodeNone(pairs, code);
    }
  }

  /**
   The table holds the sentinel and then exactly the other pairs, in the order of their codes, and
   pairs of one code in the order they came.
   */
  lemma NewCountriesConsistent(pairs: seq<CountryPair>)
    ensures var c := NewCountries(pairs);
            && Consistent(c)
            && InOrder(Emit(c)[1..])
            && multiset(Emit(c)[1..]) == multiset(WithoutSentinel(pairs))
            && (forall code :: code != SENTINEL_CODE ==> WithCode(Emit(c)[1..], code) == WithCode(pairs, code))
  {
    hide SortByCode, WithCode, InOrder, IndexByCode, WithoutSentinel;
    var c := NewCountries(pairs);
    SortIsSort(WithoutSentinel(pairs));
    assert Emit(c)[1..] == SortByCode(WithoutSentinel(pairs));
    forall code | code != SENTINEL_CODE ensures WithCode(Emit(c)[1..], code) == WithCode(pairs, code) {
      WithoutSentinelKeeps(pairs, code);
    }
  }

  lemma RemovedOne(pairs: seq<CountryPair>, i: nat)
    requires i < |pairs|
    ensures multiset(pairs) == multiset(pairs[..i] + pairs[i + 1..]) + multiset{pairs[i]}
  {
    assert pairs == pairs[..i] + ([pairs[i]] + pairs[i + 1..]);
  }

  lemma WithoutSentinelMultiset(pairs: seq<CountryPair>)
    ensures var i := FirstIndex(pairs, SENTINEL_CODE);
            multiset(pairs)
            == multiset(WithoutSentinel(pairs)) + (if i < |pairs| then multiset{pairs[i]} else multiset{})
  {
    var i := FirstIndex(pairs, SENTINEL_CODE);
    if i < |pairs| { RemovedOne(pairs, i); }
  }

  /** Rebuilding the table from the list it emits gives the same table, so stored indexes keep their meaning. */
  lemma RebuildSame(pairs: seq<CountryPair>)
    ensures NewCountries(Emit(NewCountries(pairs))) == NewCountries(pairs)
  {
    hide SortByCode, WithCode, InOrder, IndexByCode;
    var sorted := SortByCode(WithoutSentinel(pairs));
    var emitted := Emit(NewCountries(pairs));
    assert emitted == [(SENTINEL.iso3166, SENTINEL.name)] + sorted;
    assert FirstIndex(emitted, SENTINEL_CODE) == 0;
    assert WithoutSentinel(emitted) == sorted;
    SortIsSort(WithoutSentinel(pairs));
    SortIsSort(sorted);
    StableSortUnique(SortByCode(sorted), sorted);
  }

  // Looking up

  datatype Lookup = Found(country: Country) | NotFound

  function CountryFromIndex(c: Countries, index: nat): Lookup
  {
    if index < |c.list| then Found(c.list[index]) else NotFound
  }

  function UpperChar(ch: char): char
  {
    if 'a' <= ch <= 'z' then (ch as int - 32) as char else ch
  }

  function Upper(s: string): (r: string)
    ensures |r| == |s|
  {
    seq(|s|, i requires 0 <= i < |s| => UpperChar(s[i]))
  }

  const LOWER_CASE := "abcdefghijklmnopqrstuvwxyz"
  const UPPER_CASE := "ABCDEFGHIJKLMNOPQRSTUVWXYZ"

  /** Each of the 26 lower-case letters becomes its capital, and nothing else changes. */
  lemma UpperExact(s: string, i: nat)
    requires i < |s|
    ensures |Upper(s)| == |s|
    ensures forall k :: 0 <= k < 26 && s[i] == LOWER_CASE[k] ==> Upper(s)[i] == UPPER_CASE[k]
    ensures s[i] !in LOWER_CASE ==> Upper(s)[i] == s[i]
  {
    if 'a' <= s[i] <= 'z' {
      var k := s[i] as int - 'a' as int;
      assert LOWER_CASE[k] == s[i];
    }
  }

  /** An index entry beyond the list is a data error the program does not survive. */
  function CountryFromCode(c: Countries, code: string): Lookup
    requires Upper(code) in c.indexByCode ==> c.indexByCode[Upper(code)] < |c.list|
  {
    if Upper(code) in c.indexByCode then CountryFromIndex(c, c.indexByCode[Upper(code)]) else NotFound
  }

  /** A lookup finds the last country whose code is the upper-cased one, and fails only if there is none. */
  lemma LookupExact(c: Countries, code: string)
    requires Consistent(c)
    ensures Upper(code) in c.indexByCode ==> c.indexByCode[Upper(code)] < |c.list|
    ensures var r := CountryFromCode(c, code);
            if r.Found? then r.country in c.list && r.country.iso3166 == Upper(code)
                 && (forall j :: r.country.index < j < |c.list| ==> c.list[j].iso3166 != Upper(code))
            else forall j :: 0 <= j < |c.list| ==> c.list[j].iso3166 != Upper(code)
  {
    IndexByCodeIsLast(c.list, Upper(code));
  }

  /** A country is found under its own code exactly when the code is in upper case and no later country has it. */
  lemma FoundByOwnCode(c: Countries, i: nat)
    requires Consistent(c) && i < |c.list|
    ensures var code := c.list[i].iso3166;
            && (Upper(code) in c.indexByCode ==> c.indexByCode[Upper(code)] < |c.list|)
            && (CountryFromCode(c, code) == Found(c.list[i])
                <==> Upper(code) == code && forall j :: i < j < |c.list| ==> c.list[j].iso3166 != code)
  {
    LookupExact(c, c.list[i].iso3166);
  }
}
