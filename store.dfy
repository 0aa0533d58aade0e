/** The scam database behind check_address and check_domain (main.py).

    Three tables: addresses(id, address), domains(id, domain) and
    domain_address_mapping(domain_id, address_id). Each lookup first asks
    whether the key exists and, only if it does, runs an inner join over the
    three tables that yields the strings linked to the key on the other side.

    A join result is specified through "hits": triples of row indices
    (domain row, mapping row, address row) whose ids agree. The join lists one
    entry per hit that matches the key, in the nested-loop order of the FROM
    clause. */
module AssociationStore {

  datatype AddressRow = AddressRow(id: int, address: string)
  datatype DomainRow = DomainRow(id: int, domain: string)
  datatype MappingRow = MappingRow(domainId: int, addressId: int)

  /** The contents of the three tables, rows in storage order. */
  datatype Tables = Tables(addresses: seq<AddressRow>, domains: seq<DomainRow>, mapping: seq<MappingRow>)

  /** SELECT EXISTS(SELECT 1 FROM addresses WHERE address = a) */
  ghost predicate AddressExists(t: Tables, a: string) {
    exists k :: 0 <= k < |t.addresses| && t.addresses[k].address == a
  }

  /** SELECT EXISTS(SELECT 1 FROM domains WHERE domain = d) */
  ghost predicate DomainExists(t: Tables, d: string) {
    exists k :: 0 <= k < |t.domains| && t.domains[k].domain == d
  }

  // ---------------------------------------------------------------------
  // The join

  /** Row indices into domains, domain_address_mapping and addresses. */
  datatype Hit = Hit(d: nat, m: nat, a: nat)

  /** The three rows exist and agree on both ids of the mapping row. */
  predicate Joins(t: Tables, h: Hit) {
    && h.d < |t.domains| && h.m < |t.mapping| && h.a < |t.addresses|
    && t.domains[h.d].id == t.mapping[h.m].domainId
    && t.mapping[h.m].addressId == t.addresses[h.a].id
  }

  /** The two join statements of the source. DomainsOfAddress reads
      FROM domains JOIN mapping JOIN addresses WHERE addresses.address = a;
      AddressesOfDomain reads FROM addresses JOIN mapping JOIN domains
      WHERE domains.domain = d. */
  datatype Query = DomainsOfAddress(address: string) | AddressesOfDomain(domain: string)

  predicate Selects(t: Tables, q: Query, h: Hit) {
    && Joins(t, h)
    && match q
       case DomainsOfAddress(a) => t.addresses[h.a].address == a
       case AddressesOfDomain(d) => t.domains[h.d].domain == d
  }

  /** Size of the first table of the FROM clause, and of the last one. */
  function OuterSize(t: Tables, q: Query): nat {
    if q.DomainsOfAddress? then |t.domains| else |t.addresses|
  }

  function InnerSize(t: Tables, q: Query): nat {
    if q.DomainsOfAddress? then |t.addresses| else |t.domains|
  }

  /** The hit at outer row x, mapping row y and inner row z. */
  function At(q: Query, x: nat, y: nat, z: nat): Hit {
    if q.DomainsOfAddress? then Hit(x, y, z) else Hit(z, y, x)
  }

  function OuterOf(q: Query, h: Hit): nat {
    if q.DomainsOfAddress? then h.d else h.a
  }

  function InnerOf(q: Query, h: Hit): nat {
    if q.DomainsOfAddress? then h.a else h.d
  }

  ghost predicate Distinct(hs: seq<Hit>) {
    forall i, j :: 0 <= i < j < |hs| ==> hs[i] != hs[j]
  }

  lemma DistinctConcat(xs: seq<Hit>, ys: seq<Hit>)
    requires Distinct(xs) && Distinct(ys)
    requires forall h | h in xs :: h !in ys
    ensures Distinct(xs + ys)
  {
    forall i, j | 0 <= i < j < |xs + ys| ensures (xs + ys)[i] != (xs + ys)[j] {
      if j >= |xs| && i < |xs| {
        assert (xs + ys)[i] in xs && (xs + ys)[j] == ys[j - |xs|];
      }
    }
  }

  /** Matching hits for outer row x and mapping row y, inner rows [0, n). */
  function InnerHits(t: Tables, q: Query, x: nat, y: nat, n: nat): seq<Hit> {
    if n == 0 then []
    else
      var h := At(q, x, y, n - 1);
      InnerHits(t, q, x, y, n - 1) + if Selects(t, q, h) then [h] else []
  }

  /** Matching hits for outer row x, mapping rows [0, n). */
  function MiddleHits(t: Tables, q: Query, x: nat, n: nat): seq<Hit> {
    if n == 0 then []
    else MiddleHits(t, q, x, n - 1) + InnerHits(t, q, x, n - 1, InnerSize(t, q))
  }

  /** Matching hits for outer rows [0, n). */
  function OuterHits(t: Tables, q: Query, n: nat): seq<Hit> {
    if n == 0 then []
    else OuterHits(t, q, n - 1) + MiddleHits(t, q, n - 1, |t.mapping|)
  }

  /** Every matching hit, in the nested-loop order of the FROM clause. */
  function Hits(t: Tables, q: Query): (r: seq<Hit>)
    ensures forall h | h in r :: Selects(t, q, h)
  {
    OuterHitsSound(t, q, OuterSize(t, q));
    OuterHits(t, q, OuterSize(t, q))
  }

  /** The column the join selects from a hit (a hit outside the tables is
      never produced; it maps to the empty string only to keep this total). */
  function Answer(t: Tables, q: Query, h: Hit): string {
    match q
    case DomainsOfAddress(_) => if h.d < |t.domains| then t.domains[h.d].domain else ""
    case AddressesOfDomain(_) => if h.a < |t.addresses| then t.addresses[h.a].address else ""
  }

  function Project(t: Tables, q: Query, hs: seq<Hit>): seq<string> {
    seq(|hs|, k requires 0 <= k < |hs| => Answer(t, q, hs[k]))
  }

  lemma ProjectConcat(t: Tables, q: Query, xs: seq<Hit>, ys: seq<Hit>)
    ensures Project(t, q, xs + ys) == Project(t, q, xs) + Project(t, q, ys)
  {
  }

  /** One more inner row: the projection grows by that row's answer when
      the triple matches, and by nothing otherwise. */
  lemma InnerStep(t: Tables, q: Query, x: nat, y: nat, z: nat)
    ensures Project(t, q, InnerHits(t, q, x, y, z + 1))
         == Project(t, q, InnerHits(t, q, x, y, z))
            + if Selects(t, q, At(q, x, y, z)) then [Answer(t, q, At(q, x, y, z))] else []
  {
    var h := At(q, x, y, z);
    ProjectConcat(t, q, InnerHits(t, q, x, y, z), if Selects(t, q, h) then [h] else []);
  }

  /** One more mapping row: the projection grows by that row's inner hits. */
  lemma MiddleStep(t: Tables, q: Query, x: nat, y: nat)
    ensures Project(t, q, MiddleHits(t, q, x, y + 1))
         == Project(t, q, MiddleHits(t, q, x, y)) + Project(t, q, InnerHits(t, q, x, y, InnerSize(t, q)))
  {
    ProjectConcat(t, q, MiddleHits(t, q, x, y), InnerHits(t, q, x, y, InnerSize(t, q)));
  }

  /** One more outer row: the projection grows by that row's middle hits. */
  lemma OuterStep(t: Tables, q: Query, x: nat)
    ensures Project(t, q, OuterHits(t, q, x + 1))
         == Project(t, q, OuterHits(t, q, x)) + Project(t, q, MiddleHits(t, q, x, |t.mapping|))
  {
    ProjectConcat(t, q, OuterHits(t, q, x), MiddleHits(t, q, x, |t.mapping|));
  }

  /** The rows the join statement of q returns. */
  function Answers(t: Tables, q: Query): seq<string> {
    Project(t, q, Hits(t, q))
  }

  function DomainsOf(t: Tables, a: string): seq<string> {
    Answers(t, DomainsOfAddress(a))
  }

  function AddressesOf(t: Tables, d: string): seq<string> {
    Answers(t, AddressesOfDomain(d))
  }

  /** Address a and domain d are linked by some mapping row whose ids both resolve. */
  ghost predicate Linked(t: Tables, a: string, d: string) {
    exists h :: Joins(t, h) && t.addresses[h.a].address == a && t.domains[h.d].domain == d
  }

  // ---------------------------------------------------------------------
  // Properties of the join

  lemma {:induction false} InnerHitsSound(t: Tables, q: Query, x: nat, y: nat, n: nat)
    ensures forall h | h in InnerHits(t, q, x, y, n) ::
      Selects(t, q, h) && OuterOf(q, h) == x && h.m == y && InnerOf(q, h) < n
    decreases n
  {
    if n > 0 {
      InnerHitsSound(t, q, x, y, n - 1);
    }
  }

  lemma {:induction false} MiddleHitsSound(t: Tables, q: Query, x: nat, n: nat)
    ensures forall h | h in MiddleHits(t, q, x, n) :: Selects(t, q, h) && OuterOf(q, h) == x && h.m < n
    decreases n
  {
    if n > 0 {
      MiddleHitsSound(t, q, x, n - 1);
      InnerHitsSound(t, q, x, n - 1, InnerSize(t, q));
    }
  }

  lemma {:induction false} OuterHitsSound(t: Tables, q: Query, n: nat)
    ensures forall h | h in OuterHits(t, q, n) :: Selects(t, q, h) && OuterOf(q, h) < n
    decreases n
  {
    if n > 0 {
      OuterHitsSound(t, q, n - 1);
      MiddleHitsSound(t, q, n - 1, |t.mapping|);
    }
  }

  lemma {:induction false} InnerHitsComplete(t: Tables, q: Query, h: Hit, n: nat)
    requires Selects(t, q, h) && InnerOf(q, h) < n
    ensures h in InnerHits(t, q, OuterOf(q, h), h.m, n)
    decreases n
  {
    if InnerOf(q, h) < n - 1 {
      InnerHitsComplete(t, q, h, n - 1);
    } else {
      assert At(q, OuterOf(q, h), h.m, n - 1) == h;
    }
  }

  lemma MiddleHitsComplete(t: Tables, q: Query, h: Hit, n: nat)
    requires Selects(t, q, h) && h.m < n
    ensures h in MiddleHits(t, q, OuterOf(q, h), n)
  {
    MiddleHitsLastRow(t, q, h, h.m);
    MiddleHitsKeep(t, q, h, OuterOf(q, h), h.m + 1, n);
  }

  /** A hit found among the first y mapping rows stays found among more. */
  lemma {:induction false} MiddleHitsKeep(t: Tables, q: Query, h: Hit, x: nat, y: nat, n: nat)
    requires h in MiddleHits(t, q, x, y) && y <= n
    ensures h in MiddleHits(t, q, x, n)
    decreases n
  {
    if y < n {
      MiddleHitsKeep(t, q, h, x, y, n - 1);
      assert MiddleHits(t, q, x, n) == MiddleHits(t, q, x, n - 1) + InnerHits(t, q, x, n - 1, InnerSize(t, q));
    }
  }

  lemma MiddleHitsLastRow(t: Tables, q: Query, h: Hit, y: nat)
    requires Selects(t, q, h) && h.m == y
    ensures h in MiddleHits(t, q, OuterOf(q, h), y + 1)
  {
    assert InnerOf(q, h) < InnerSize(t, q);
    InnerHitsComplete(t, q, h, InnerSize(t, q));
  }


  lemma OuterHitsComplete(t: Tables, q: Query, h: Hit, n: nat)
    requires Selects(t, q, h) && OuterOf(q, h) < n
    ensures h in OuterHits(t, q, n)
  {
    OuterHitsLastRow(t, q, h, OuterOf(q, h));
    OuterHitsKeep(t, q, h, OuterOf(q, h) + 1, n);
  }

  /** A hit found among the first x outer rows stays found among more. */
  lemma {:induction false} OuterHitsKeep(t: Tables, q: Query, h: Hit, x: nat, n: nat)
    requires h in OuterHits(t, q, x) && x <= n
    ensures h in OuterHits(t, q, n)
    decreases n
  {
    if x < n {
      OuterHitsKeep(t, q, h, x, n - 1);
      assert OuterHits(t, q, n) == OuterHits(t, q, n - 1) + MiddleHits(t, q, n - 1, |t.mapping|);
    }
  }

  lemma OuterHitsLastRow(t: Tables, q: Query, h: Hit, x: nat)
    requires Selects(t, q, h) && OuterOf(q, h) == x
    ensures h in OuterHits(t, q, x + 1)
  {
    MiddleHitsComplete(t, q, h, |t.mapping|);
  }



  lemma {:induction false} InnerHitsDistinct(t: Tables, q: Query, x: nat, y: nat, n: nat)
    ensures Distinct(InnerHits(t, q, x, y, n))
    decreases n
  {
    if n > 0 {
      InnerHitsDistinct(t, q, x, y, n - 1);
      InnerDistinctStep(t, q, x, y, n - 1);
    }
  }

  lemma InnerDistinctStep(t: Tables, q: Query, x: nat, y: nat, z: nat)
    requires Distinct(InnerHits(t, q, x, y, z))
    ensures Distinct(InnerHits(t, q, x, y, z + 1))
  {
    var h := At(q, x, y, z);
    var prefix, last := InnerHits(t, q, x, y, z), if Selects(t, q, h) then [h] else [];
    InnerHitsSound(t, q, x, y, z);
    forall g | g in prefix ensures g !in last {
      assert InnerOf(q, g) < z;
    }
    DistinctConcat(prefix, last);
  }

  lemma {:induction false} MiddleHitsDistinct(t: Tables, q: Query, x: nat, n: nat)
    ensures Distinct(MiddleHits(t, q, x, n))
    decreases n
  {
    if n > 0 {
      MiddleHitsDistinct(t, q, x, n - 1);
      MiddleDistinctStep(t, q, x, n - 1);
    }
  }

  lemma MiddleDistinctStep(t: Tables, q: Query, x: nat, y: nat)
    requires Distinct(MiddleHits(t, q, x, y))
    ensures Distinct(MiddleHits(t, q, x, y + 1))
  {
    var prefix, last := MiddleHits(t, q, x, y), InnerHits(t, q, x, y, InnerSize(t, q));
    InnerHitsDistinct(t, q, x, y, InnerSize(t, q));
    MiddleHitsSound(t, q, x, y);
    InnerHitsSound(t, q, x, y, InnerSize(t, q));
    forall h | h in prefix ensures h !in last {
      assert h.m < y;
    }
    DistinctConcat(prefix, last);
  }

  lemma {:induction false} OuterHitsDistinct(t: Tables, q: Query, n: nat)
    ensures Distinct(OuterHits(t, q, n))
    decreases n
  {
    if n > 0 {
      OuterHitsDistinct(t, q, n - 1);
      OuterDistinctStep(t, q, n - 1);
    }
  }

  lemma OuterDistinctStep(t: Tables, q: Query, x: nat)
    requires Distinct(OuterHits(t, q, x))
    ensures Distinct(OuterHits(t, q, x + 1))
  {
    var prefix, last := OuterHits(t, q, x), MiddleHits(t, q, x, |t.mapping|);
    MiddleHitsDistinct(t, q, x, |t.mapping|);
    OuterHitsSound(t, q, x);
    MiddleHitsSound(t, q, x, |t.mapping|);
    forall h | h in prefix ensures h !in last {
      assert OuterOf(q, h) < x;
    }
    DistinctConcat(prefix, last);
  }

  /** The hits are exactly the matching triples, each listed once. */
  lemma HitsExactly(t: Tables, q: Query)
    ensures forall h :: h in Hits(t, q) <==> Selects(t, q, h)
    ensures Distinct(Hits(t, q))
  {
    forall h | Selects(t, q, h) ensures h in Hits(t, q) {
      OuterHitsComplete(t, q, h, OuterSize(t, q));
    }
    OuterHitsDistinct(t, q, OuterSize(t, q));
  }

  /** Projecting distinct hits lists each string once per hit that has it. */
  lemma {:induction false} ProjectCount(t: Tables, q: Query, hs: seq<Hit>, s: string)
    requires Distinct(hs)
    ensures multiset(Project(t, q, hs))[s] == |set h | h in hs && Answer(t, q, h) == s|
    decreases |hs|
  {
    if hs == [] {
      assert (set h | h in hs && Answer(t, q, h) == s) == {};
    } else {
      var init, last := hs[..|hs| - 1], hs[|hs| - 1];
      assert hs == init + [last];
      assert Distinct(init);
      ProjectCount(t, q, init, s);
      ProjectConcat(t, q, init, [last]);
      assert last !in init;
      CountStep(t, q, init, last, s);
    }
  }

  /** Appending a hit not yet counted adds one to the count of its string. */
  lemma CountStep(t: Tables, q: Query, init: seq<Hit>, last: Hit, s: string)
    requires last !in init
    ensures |set h | h in init + [last] && Answer(t, q, h) == s|
         == |set h | h in init && Answer(t, q, h) == s| + if Answer(t, q, last) == s then 1 else 0
  {
    var before := set h | h in init && Answer(t, q, h) == s;
    if Answer(t, q, last) == s {
      assert (set h | h in init + [last] && Answer(t, q, h) == s) == before + {last};
    } else {
      assert (set h | h in init + [last] && Answer(t, q, h) == s) == before;
    }
  }


  /** The join returns exactly one entry per matching (domain row, mapping
      row, address row) triple: the hits are exactly the matching triples, and
      each string is listed as often as there are hits that carry it. */
  lemma JoinListsEachMatchOnce(t: Tables, q: Query, s: string)
    ensures forall h :: h in Hits(t, q) <==> Selects(t, q, h)
    ensures multiset(Answers(t, q))[s] == |set h | h in Hits(t, q) && Answer(t, q, h) == s|
  {
    HitsExactly(t, q);
    ProjectCount(t, q, Hits(t, q), s);
  }

  /** A string is listed by a join exactly when some matching triple has it. */
  lemma AnswersMembership(t: Tables, q: Query, s: string)
    ensures s in Answers(t, q) <==> exists h :: Selects(t, q, h) && Answer(t, q, h) == s
  {
    HitsExactly(t, q);
    var hs := Hits(t, q);
    if s in Answers(t, q) {
      var k :| 0 <= k < |hs| && Answers(t, q)[k] == s;
      assert hs[k] in hs;
    }
    if exists h :: Selects(t, q, h) && Answer(t, q, h) == s {
      var h :| Selects(t, q, h) && Answer(t, q, h) == s;
      var k :| 0 <= k < |hs| && hs[k] == h;
      assert Answers(t, q)[k] == s;
    }
  }

  /** The relation is symmetric: d is listed for a exactly when a is listed
      for d, and then both keys exist in their tables. */
  lemma LinkSymmetry(t: Tables, a: string, d: string)
    ensures d in DomainsOf(t, a) <==> Linked(t, a, d)
    ensures a in AddressesOf(t, d) <==> Linked(t, a, d)
    ensures Linked(t, a, d) ==> AddressExists(t, a) && DomainExists(t, d)
  {
    AnswersMembership(t, DomainsOfAddress(a), d);
    AnswersMembership(t, AddressesOfDomain(d), a);
    if Linked(t, a, d) {
      var h :| Joins(t, h) && t.addresses[h.a].address == a && t.domains[h.d].domain == d;
      assert Selects(t, DomainsOfAddress(a), h) && Answer(t, DomainsOfAddress(a), h) == d;
      assert Selects(t, AddressesOfDomain(d), h) && Answer(t, AddressesOfDomain(d), h) == a;
    }
  }

  /** A key missing from its table has nothing linked to it, so the
      existence test before the join never hides a row. */
  lemma AbsentKeyHasNoLinks(t: Tables, a: string, d: string)
    ensures !AddressExists(t, a) ==> DomainsOf(t, a) == []
    ensures !DomainExists(t, d) ==> AddressesOf(t, d) == []
  {
    var ha := Hits(t, DomainsOfAddress(a));
    var hd := Hits(t, AddressesOfDomain(d));
    if ha != [] {
      assert ha[0] in ha;
      assert AddressExists(t, a);
    }
    if hd != [] {
      assert hd[0] in hd;
      assert DomainExists(t, d);
    }
  }

  /** With every mapping row deleted, each key still exists exactly as
      before, and nothing is linked: existence and links are independent. */
  lemma ExistenceIndependentOfLinks(t: Tables, a: string, d: string)
    ensures AddressExists(t.(mapping := []), a) == AddressExists(t, a)
    ensures DomainExists(t.(mapping := []), d) == DomainExists(t, d)
    ensures DomainsOf(t.(mapping := []), a) == []
    ensures AddressesOf(t.(mapping := []), d) == []
  {
    var u := t.(mapping := []);
    HeadIn(Hits(u, DomainsOfAddress(a)));
    HeadIn(Hits(u, AddressesOfDomain(d)));
  }

  /** The first element of a non-empty list is in it. Stated as a lemma so
      that the membership fact reaches a caller whose list turns out empty
      without an index expression under contradictory assumptions. */
  lemma HeadIn(hs: seq<Hit>)
    ensures hs != [] ==> hs[0] in hs
  {
  }

  /** A mapping row whose domain_id or address_id has no row. */
  ghost predicate Dangling(t: Tables, m: MappingRow) {
    || (forall i :: 0 <= i < |t.domains| ==> t.domains[i].id != m.domainId)
    || (forall k :: 0 <= k < |t.addresses| ==> t.addresses[k].id != m.addressId)
  }

  lemma {:induction false} InnerHitsIgnoreDangling(t: Tables, m: MappingRow, q: Query, x: nat, y: nat, n: nat)
    requires y < |t.mapping|
    ensures InnerHits(t.(mapping := t.mapping + [m]), q, x, y, n) == InnerHits(t, q, x, y, n)
    decreases n
  {
    if n > 0 {
      InnerHitsIgnoreDangling(t, m, q, x, y, n - 1);
      var u := t.(mapping := t.mapping + [m]);
      var h := At(q, x, y, n - 1);
      assert Selects(u, q, h) == Selects(t, q, h);
    }
  }

  lemma {:induction false} MiddleHitsIgnoreDangling(t: Tables, m: MappingRow, q: Query, x: nat, n: nat)
    requires n <= |t.mapping|
    ensures MiddleHits(t.(mapping := t.mapping + [m]), q, x, n) == MiddleHits(t, q, x, n)
    decreases n
  {
    if n > 0 {
      MiddleHitsIgnoreDangling(t, m, q, x, n - 1);
      MiddleDanglingStep(t, m, q, x, n - 1);
    }
  }

  /** The inductive step: one more mapping row, already present before the
      dangling one was appended, keeps the two results equal. */
  lemma MiddleDanglingStep(t: Tables, m: MappingRow, q: Query, x: nat, y: nat)
    requires y < |t.mapping|
    requires MiddleHits(t.(mapping := t.mapping + [m]), q, x, y) == MiddleHits(t, q, x, y)
    ensures MiddleHits(t.(mapping := t.mapping + [m]), q, x, y + 1) == MiddleHits(t, q, x, y + 1)
  {
    var u := t.(mapping := t.mapping + [m]);
    assert InnerSize(u, q) == InnerSize(t, q);
    InnerHitsIgnoreDangling(t, m, q, x, y, InnerSize(t, q));
  }


  lemma {:induction false} DanglingRowHasNoHits(t: Tables, m: MappingRow, q: Query, x: nat, n: nat)
    requires Dangling(t, m)
    ensures InnerHits(t.(mapping := t.mapping + [m]), q, x, |t.mapping|, n) == []
    decreases n
  {
    if n > 0 {
      DanglingRowHasNoHits(t, m, q, x, n - 1);
      var u := t.(mapping := t.mapping + [m]);
      var h := At(q, x, |t.mapping|, n - 1);
      assert u.mapping[|t.mapping|] == m;
      if h.d < |t.domains| && h.a < |t.addresses| {
        assert t.domains[h.d].id != m.domainId || t.addresses[h.a].id != m.addressId;
      }
      assert !Selects(u, q, h);
    }
  }

  /** An outer row's hits, over all mapping rows, do not change when a
      dangling row is appended to the mapping. */
  lemma RowIgnoresDangling(t: Tables, m: MappingRow, q: Query, x: nat)
    requires Dangling(t, m)
    ensures MiddleHits(t.(mapping := t.mapping + [m]), q, x, |t.mapping| + 1) == MiddleHits(t, q, x, |t.mapping|)
  {
    var u := t.(mapping := t.mapping + [m]);
    MiddleHitsIgnoreDangling(t, m, q, x, |t.mapping|);
    DanglingRowHasNoHits(t, m, q, x, InnerSize(u, q));
    assert MiddleHits(u, q, x, |t.mapping| + 1)
        == MiddleHits(u, q, x, |t.mapping|) + InnerHits(u, q, x, |t.mapping|, InnerSize(u, q));
  }

  /** The inductive step: one more outer row keeps the two joins equal. */
  lemma DanglingStep(t: Tables, m: MappingRow, q: Query, x: nat)
    requires Dangling(t, m)
    requires OuterHits(t.(mapping := t.mapping + [m]), q, x) == OuterHits(t, q, x)
    ensures OuterHits(t.(mapping := t.mapping + [m]), q, x + 1) == OuterHits(t, q, x + 1)
  {
    RowIgnoresDangling(t, m, q, x);
  }

  lemma {:induction false} OuterHitsIgnoreDangling(t: Tables, m: MappingRow, q: Query, n: nat)
    requires Dangling(t, m)
    ensures OuterHits(t.(mapping := t.mapping + [m]), q, n) == OuterHits(t, q, n)
    decreases n
  {
    if n > 0 {
      OuterHitsIgnoreDangling(t, m, q, n - 1);
      DanglingStep(t, m, q, n - 1);
    }
  }

  /** A mapping row that points at a missing domain or address contributes
      nothing to either join. */
  lemma DanglingMappingIgnored(t: Tables, m: MappingRow, q: Query)
    requires Dangling(t, m)
    ensures Answers(t.(mapping := t.mapping + [m]), q) == Answers(t, q)
  {
    OuterHitsIgnoreDangling(t, m, q, OuterSize(t, q));
  }

  // ---------------------------------------------------------------------
  // The database object and its queries

  /** The scam_check.db database. The lookups only read it: no method below
      has a modifies clause. */
  class ScamDatabase {
    var addresses: seq<AddressRow>
    var domains: seq<DomainRow>
    var mapping: seq<MappingRow>

    function Contents(): Tables
      reads this
    {
      Tables(addresses, domains, mapping)
    }

    constructor (t: Tables)
      ensures Contents() == t
    {
      addresses, domains, mapping := t.addresses, t.domains, t.mapping;
    }

    /** SELECT EXISTS(SELECT 1 FROM addresses WHERE address = ?) */
    method AddressExistsQuery(a: string) returns (found: bool)
      ensures found == AddressExists(Contents(), a)
    {
      found := false;
      var k := 0;
      while k < |addresses|
        invariant 0 <= k <= |addresses|
        invariant found <==> exists i :: 0 <= i < k && addresses[i].address == a
      {
        if addresses[k].address == a {
          found := true;
        }
        k := k + 1;
      }
    }

    /** SELECT EXISTS(SELECT 1 FROM domains WHERE domain = ?) */
    method DomainExistsQuery(d: string) returns (found: bool)
      ensures found == DomainExists(Contents(), d)
    {
      found := false;
      var k := 0;
      while k < |domains|
        invariant 0 <= k <= |domains|
        invariant found <==> exists i :: 0 <= i < k && domains[i].domain == d
      {
        if domains[k].domain == d {
          found := true;
        }
        k := k + 1;
      }
    }

    /** SELECT domains.domain FROM domains JOIN domain_address_mapping ON
        domains.id = domain_id JOIN addresses ON addresses.id = address_id
        WHERE addresses.address = ?, evaluated as a nested loop: domain rows
        outside, mapping rows inside them, address rows innermost. */
    method DomainsJoin(a: string) returns (rows: seq<string>)
      ensures rows == DomainsOf(Contents(), a)
    {
      ghost var t := Contents();
      ghost var q := DomainsOfAddress(a);
      rows := [];
      var x := 0;
      while x < |domains|
        invariant 0 <= x <= |domains|
        invariant rows == Project(t, q, OuterHits(t, q, x))
      {
        var found := DomainsJoinRow(a, x);
        rows := rows + found;
        OuterStep(t, q, x);
        x := x + 1;
      }
    }

    /** The middle loop of DomainsJoin: domain row x against every mapping row. */
    method DomainsJoinRow(a: string, x: nat) returns (rows: seq<string>)
      requires x < |domains|
      ensures rows == Project(Contents(), DomainsOfAddress(a), MiddleHits(Contents(), DomainsOfAddress(a), x, |mapping|))
    {
      ghost var t := Contents();
      ghost var q := DomainsOfAddress(a);
      rows := [];
      var y := 0;
      while y < |mapping|
        invariant 0 <= y <= |mapping|
        invariant rows == Project(t, q, MiddleHits(t, q, x, y))
      {
        var found := DomainsJoinAt(a, x, y);
        rows := rows + found;
        MiddleStep(t, q, x, y);
        y := y + 1;
      }
    }

    /** The innermost loop of DomainsJoin: domain row x and mapping row y
        against every address row. */
    method DomainsJoinAt(a: string, x: nat, y: nat) returns (rows: seq<string>)
      requires x < |domains| && y < |mapping|
      ensures rows == Project(Contents(), DomainsOfAddress(a), InnerHits(Contents(), DomainsOfAddress(a), x, y, |addresses|))
    {
      ghost var t := Contents();
      ghost var q := DomainsOfAddress(a);
      rows := [];
      var z := 0;
      while z < |addresses|
        invariant 0 <= z <= |addresses|
        invariant rows == Project(t, q, InnerHits(t, q, x, y, z))
      {
        InnerStep(t, q, x, y, z);
        ghost var h := Hit(x, y, z);
        assert At(q, x, y, z) == h;
        if domains[x].id == mapping[y].domainId && mapping[y].addressId == addresses[z].id
           && addresses[z].address == a
        {
          assert Selects(t, q, h) && Answer(t, q, h) == domains[x].domain;
          rows := rows + [domains[x].domain];
        } else {
          assert !Selects(t, q, h);
        }
        z := z + 1;
      }
    }

    /** SELECT addresses.address FROM addresses JOIN domain_address_mapping ON
        addresses.id = address_id JOIN domains ON domains.id = domain_id
        WHERE domains.domain = ?, evaluated as a nested loop: address rows
        outside, mapping rows inside them, domain rows innermost. */
    method AddressesJoin(d: string) returns (rows: seq<string>)
      ensures rows == AddressesOf(Contents(), d)
    {
      ghost var t := Contents();
      ghost var q := AddressesOfDomain(d);
      rows := [];
      var x := 0;
      while x < |addresses|
        invariant 0 <= x <= |addresses|
        invariant rows == Project(t, q, OuterHits(t, q, x))
      {
        var found := AddressesJoinRow(d, x);
        rows := rows + found;
        OuterStep(t, q, x);
        x := x + 1;
      }
    }

    /** The middle loop of AddressesJoin: address row x against every mapping row. */
    method AddressesJoinRow(d: string, x: nat) returns (rows: seq<string>)
      requires x < |addresses|
      ensures rows == Project(Contents(), AddressesOfDomain(d), MiddleHits(Contents(), AddressesOfDomain(d), x, |mapping|))
    {
      ghost var t := Contents();
      ghost var q := AddressesOfDomain(d);
      rows := [];
      var y := 0;
      while y < |mapping|
        invariant 0 <= y <= |mapping|
        invariant rows == Project(t, q, MiddleHits(t, q, x, y))
      {
        var found := AddressesJoinAt(d, x, y);
        rows := rows + found;
        MiddleStep(t, q, x, y);
        y := y + 1;
      }
    }

    /** The innermost loop of AddressesJoin: address row x and mapping row y
        against every domain row. */
    method AddressesJoinAt(d: string, x: nat, y: nat) returns (rows: seq<string>)
      requires x < |addresses| && y < |mapping|
      ensures rows == Project(Contents(), AddressesOfDomain(d), InnerHits(Contents(), AddressesOfDomain(d), x, y, |domains|))
    {
      ghost var t := Contents();
      ghost var q := AddressesOfDomain(d);
      rows := [];
      var z := 0;
      while z < |domains|
        invariant 0 <= z <= |domains|
        invariant rows == Project(t, q, InnerHits(t, q, x, y, z))
      {
        InnerStep(t, q, x, y, z);
        ghost var h := Hit(z, y, x);
        assert At(q, x, y, z) == h;
        if addresses[x].id == mapping[y].addressId && mapping[y].domainId == domains[z].id
           && domains[z].domain == d
        {
          assert Selects(t, q, h) && Answer(t, q, h) == addresses[x].address;
          rows := rows + [addresses[x].address];
        } else {
          assert !Selects(t, q, h);
        }
        z := z + 1;
      }
    }

    /** check_address: existence first, the join only for a known address. */
    method CheckAddress(a: string) returns (found: bool, linked: seq<string>)
      ensures found == AddressExists(Contents(), a)
      ensures linked == if found then DomainsOf(Contents(), a) else []
    {
      found := AddressExistsQuery(a);
      linked := [];
      if found {
        linked := DomainsJoin(a);
      }
    }

    /** check_domain: the same for a (normalised) domain. */
    method CheckDomain(d: string) returns (found: bool, linked: seq<string>)
      ensures found == DomainExists(Contents(), d)
      ensures linked == if found then AddressesOf(Contents(), d) else []
    {
      found := DomainExistsQuery(d);
      linked := [];
      if found {
        linked := AddressesJoin(d);
      }
    }
  }
}
