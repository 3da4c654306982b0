/** The organizer of disco-up/pragma-organizer.mjs: seven empty sections,
    then a left-to-right fold over the deployment's resources that stores each
    physical ID under its arc name in the section of its pragma. A later
    resource with the same arc name and pragma overwrites an earlier one. */
module PragmaOrganizer {
  import opened ArcNameMapper

  /** One resource of the deployment: its logical ID and its physical ID. */
  datatype Resource = Resource(logicalId: string, physicalId: string)

  /** The resource map: for each section, arc name to physical ID. */
  type Sections = map<Pragma, map<string, string>>

  const AllPragmas: set<Pragma> := {Http, Events, Tables, Queues, Ws, Scheduled, Plugins}

  lemma PragmaInAll(p: Pragma)
    ensures p in AllPragmas
  {
    match p
    case Http =>
    case Events =>
    case Tables =>
    case Queues =>
    case Ws =>
    case Scheduled =>
    case Plugins =>
  }

  /** A resource once classified: the section and key it is stored under, and
      the value stored there. */
  datatype Entry = Entry(pragma: Pragma, arcName: string, physicalId: string)

  function Classify(r: Resource): Entry {
    var c := DeriveArcNameAndPragma(r.logicalId);
    Entry(c.pragma, c.arcName, r.physicalId)
  }

  /** The classified resources, in input order. */
  function Entries(rs: seq<Resource>): (es: seq<Entry>)
    ensures |es| == |rs|
    ensures forall i :: 0 <= i < |rs| ==> es[i] == Classify(rs[i])
  {
    MapSeq(rs, Classify)
  }

  /** `f` applied to every element, in order. */
  function MapSeq<A, B>(xs: seq<A>, f: A -> B): (ys: seq<B>)
    ensures |ys| == |xs|
  {
    seq(|xs|, i requires 0 <= i < |xs| => f(xs[i]))
  }

  /** The starting value of the fold: every section present and empty. */
  function EmptySections(): (m: Sections)
    ensures m.Keys == AllPragmas
    ensures forall p :: p in m ==> m[p] == map[]
  {
    map[Http := map[], Events := map[], Tables := map[], Queues := map[],
        Ws := map[], Scheduled := map[], Plugins := map[]]
  }

  /** One step of the fold: `organized[pragmaType][arcName] = physicalId`. */
  function Place(m: Sections, e: Entry): (m': Sections)
    requires m.Keys == AllPragmas
    ensures m'.Keys == AllPragmas
  {
    PragmaInAll(e.pragma);
    m[e.pragma := m[e.pragma][e.arcName := e.physicalId]]
  }

  /** The loop of organizeByPragma as a left fold over classified resources. */
  function Fold(es: seq<Entry>): (m: Sections)
    ensures m.Keys == AllPragmas
    decreases |es|
  {
    if es == [] then EmptySections()
    else Place(Fold(es[..|es| - 1]), es[|es| - 1])
  }

  /** organizeByPragma. Every one of the seven sections is present, whatever
      the input. */
  function OrganizeByPragma(rs: seq<Resource>): (m: Sections)
    ensures m.Keys == AllPragmas
  {
    Fold(Entries(rs))
  }

  // ---------------------------------------------------------------------------
  // Facts about the fold
  // ---------------------------------------------------------------------------

  /** Entry `i` is the last one stored under its section and key. */
  predicate IsLastFor(es: seq<Entry>, i: nat)
    requires i < |es|
  {
    forall j :: i < j < |es| ==> es[j].pragma != es[i].pragma || es[j].arcName != es[i].arcName
  }

  /** How many entries go to section `p`. */
  function CountIn(es: seq<Entry>, p: Pragma): nat
    decreases |es|
  {
    if es == [] then 0
    else CountIn(es[..|es| - 1], p) + (if es[|es| - 1].pragma == p then 1 else 0)
  }

  /** The entries of section `p` have pairwise different arc names. */
  predicate DistinctNamesIn(es: seq<Entry>, p: Pragma) {
    forall i, j :: 0 <= i < j < |es| && es[i].pragma == p && es[j].pragma == p
      ==> es[i].arcName != es[j].arcName
  }

  /** Entries stored under the same section and key carry the same value, so
      no overwrite can lose information. */
  predicate NoCollisions(es: seq<Entry>) {
    forall i, j :: 0 <= i < |es| && 0 <= j < |es| && es[i].pragma == es[j].pragma && es[i].arcName == es[j].arcName
      ==> es[i].physicalId == es[j].physicalId
  }

  /** The fold's last step as seen from one section. */
  lemma FoldStep(es: seq<Entry>, p: Pragma)
    requires es != []
    ensures var e := es[|es| - 1];
      var before := Fold(es[..|es| - 1])[p];
      Fold(es)[p] == if e.pragma == p then before[e.arcName := e.physicalId] else before
  {
    var m := Fold(es[..|es| - 1]);
    assert Fold(es) == Place(m, es[|es| - 1]);
    PlaceAt(m, es[|es| - 1], p);
  }

  /** One store, as seen from one section. */
  lemma PlaceAt(m: Sections, e: Entry, p: Pragma)
    requires m.Keys == AllPragmas
    ensures Place(m, e)[p] == if e.pragma == p then m[p][e.arcName := e.physicalId] else m[p]
  {
    PragmaInAll(p);
  }

  lemma {:induction false} FoldMembership(es: seq<Entry>, p: Pragma, n: string)
    ensures n in Fold(es)[p] <==> exists i :: 0 <= i < |es| && es[i].pragma == p && es[i].arcName == n
    decreases |es|
  {
    if es != [] {
      var init, e := es[..|es| - 1], es[|es| - 1];
      FoldStep(es, p);
      FoldMembership(init, p, n);
      if exists i :: 0 <= i < |init| && init[i].pragma == p && init[i].arcName == n {
        var i :| 0 <= i < |init| && init[i].pragma == p && init[i].arcName == n;
        assert es[i] == init[i];
      }
      if exists i :: 0 <= i < |es| && es[i].pragma == p && es[i].arcName == n {
        var i :| 0 <= i < |es| && es[i].pragma == p && es[i].arcName == n;
        if i < |init| {
          assert init[i] == es[i];
        }
      }
    }
  }

  lemma {:induction false} FoldLastWins(es: seq<Entry>, i: nat)
    requires i < |es| && IsLastFor(es, i)
    ensures es[i].arcName in Fold(es)[es[i].pragma]
    ensures Fold(es)[es[i].pragma][es[i].arcName] == es[i].physicalId
    decreases |es|
  {
    var init := es[..|es| - 1];
    FoldStep(es, es[i].pragma);
    if i < |es| - 1 {
      assert init[i] == es[i];
      assert IsLastFor(init, i) by {
        forall j | i < j < |init|
          ensures init[j].pragma != init[i].pragma || init[j].arcName != init[i].arcName
        {
          assert init[j] == es[j];
        }
      }
      FoldLastWins(init, i);
    }
  }

  lemma {:induction false} FoldProvenance(es: seq<Entry>, p: Pragma, n: string)
    requires n in Fold(es)[p]
    ensures exists i :: 0 <= i < |es| && es[i].pragma == p && es[i].arcName == n
                        && Fold(es)[p][n] == es[i].physicalId
    decreases |es|
  {
    var init, e := es[..|es| - 1], es[|es| - 1];
    FoldStep(es, p);
    if e.pragma == p && e.arcName == n {
      assert es[|es| - 1] == e;
    } else {
      FoldProvenance(init, p, n);
      var i :| 0 <= i < |init| && init[i].pragma == p && init[i].arcName == n
               && Fold(init)[p][n] == init[i].physicalId;
      assert es[i] == init[i];
    }
  }

  lemma {:induction false} FoldSize(es: seq<Entry>, p: Pragma)
    ensures |Fold(es)[p]| <= CountIn(es, p)
    ensures DistinctNamesIn(es, p) ==> |Fold(es)[p]| == CountIn(es, p)
    decreases |es|
  {
    if es != [] {
      var init, e := es[..|es| - 1], es[|es| - 1];
      FoldStep(es, p);
      FoldSize(init, p);
      if DistinctNamesIn(es, p) {
        assert DistinctNamesIn(init, p) by {
          forall i, j | 0 <= i < j < |init| && init[i].pragma == p && init[j].pragma == p
            ensures init[i].arcName != init[j].arcName
          {
            assert init[i] == es[i] && init[j] == es[j];
          }
        }
        if e.pragma == p {
          FoldMembership(init, p, e.arcName);
          forall i | 0 <= i < |init| && init[i].pragma == p
            ensures init[i].arcName != e.arcName
          {
            assert es[i] == init[i];
          }
          assert e.arcName !in Fold(init)[p];
        }
      }
    }
  }

  lemma FoldSameMembers(es1: seq<Entry>, es2: seq<Entry>, p: Pragma, n: string)
    requires multiset(es1) == multiset(es2)
    requires n in Fold(es1)[p]
    ensures n in Fold(es2)[p]
  {
    FoldMembership(es1, p, n);
    FoldMembership(es2, p, n);
    var i :| 0 <= i < |es1| && es1[i].pragma == p && es1[i].arcName == n;
    assert es1[i] in multiset(es2);
    var j :| 0 <= j < |es2| && es2[j] == es1[i];
  }

  lemma FoldOrderIrrelevant(es1: seq<Entry>, es2: seq<Entry>)
    requires multiset(es1) == multiset(es2)
    requires NoCollisions(es1)
    ensures Fold(es1) == Fold(es2)
  {
    var m1, m2 := Fold(es1), Fold(es2);
    forall p | p in m1
      ensures m1[p] == m2[p]
    {
      FoldSectionAgrees(es1, es2, p);
    }
    SectionsEqual(m1, m2);
  }

  /** Two section maps with the same seven keys are equal when every section is. */
  lemma SectionsEqual(m1: Sections, m2: Sections)
    requires m1.Keys == AllPragmas && m2.Keys == AllPragmas
    requires forall p :: p in m1 ==> m1[p] == m2[p]
    ensures m1 == m2
  {
  }

  lemma FoldSectionAgrees(es1: seq<Entry>, es2: seq<Entry>, p: Pragma)
    requires multiset(es1) == multiset(es2)
    requires NoCollisions(es1)
    ensures Fold(es1)[p] == Fold(es2)[p]
  {
    PragmaInAll(p);
    FoldSameKeys(es1, es2, p);
    forall n | n in Fold(es1)[p]
      ensures Fold(es1)[p][n] == Fold(es2)[p][n]
    {
      FoldSameValue(es1, es2, p, n);
    }
  }

  lemma FoldSameKeys(es1: seq<Entry>, es2: seq<Entry>, p: Pragma)
    requires multiset(es1) == multiset(es2)
    ensures Fold(es1)[p].Keys == Fold(es2)[p].Keys
  {
    PragmaInAll(p);
    forall n | n in Fold(es1)[p]
      ensures n in Fold(es2)[p]
    {
      FoldSameMembers(es1, es2, p, n);
    }
    forall n | n in Fold(es2)[p]
      ensures n in Fold(es1)[p]
    {
      FoldSameMembers(es2, es1, p, n);
    }
  }

  lemma FoldSameValue(es1: seq<Entry>, es2: seq<Entry>, p: Pragma, n: string)
    requires multiset(es1) == multiset(es2)
    requires NoCollisions(es1)
    requires n in Fold(es1)[p] && n in Fold(es2)[p]
    ensures Fold(es1)[p][n] == Fold(es2)[p][n]
  {
    FoldProvenance(es1, p, n);
    FoldProvenance(es2, p, n);
    var i :| 0 <= i < |es1| && es1[i].pragma == p && es1[i].arcName == n
             && Fold(es1)[p][n] == es1[i].physicalId;
    var j :| 0 <= j < |es2| && es2[j].pragma == p && es2[j].arcName == n
             && Fold(es2)[p][n] == es2[j].physicalId;
    assert es2[j] in multiset(es1);
    var k :| 0 <= k < |es1| && es1[k] == es2[j];
  }

  // ---------------------------------------------------------------------------
  // The same facts about organizeByPragma
  // ---------------------------------------------------------------------------

  /** Exactly seven sections. */
  lemma SevenSections(rs: seq<Resource>)
    ensures |OrganizeByPragma(rs)| == 7
  {
    assert |AllPragmas| == 7;
  }

  /** The sections are stored in the JSON document under exactly the seven
      keys of the initial object. */
  lemma SectionKeys(rs: seq<Resource>)
    ensures (set p | p in OrganizeByPragma(rs) :: PragmaName(p))
         == {"http", "events", "tables", "queues", "ws", "scheduled", "plugins"}
  {
    var m := OrganizeByPragma(rs);
    assert (set p | p in m :: PragmaName(p)) == (set p | p in AllPragmas :: PragmaName(p));
    NamesOfAllPragmas();
  }

  lemma NamesOfAllPragmas()
    ensures (set p | p in AllPragmas :: PragmaName(p))
         == {"http", "events", "tables", "queues", "ws", "scheduled", "plugins"}
  {
    var names := set p | p in AllPragmas :: PragmaName(p);
    assert PragmaName(Http) in names;
    assert PragmaName(Events) in names;
    assert PragmaName(Tables) in names;
    assert PragmaName(Queues) in names;
    assert PragmaName(Ws) in names;
    assert PragmaName(Scheduled) in names;
    assert PragmaName(Plugins) in names;
  }

  /** With no resources every section is empty. */
  lemma EmptyInput()
    ensures forall p :: p in OrganizeByPragma([]) && OrganizeByPragma([])[p] == map[]
  {
    assert Entries([]) == [];
    forall p
      ensures p in OrganizeByPragma([])
    {
      PragmaInAll(p);
    }
  }

  /** A key is in a section exactly when some resource is classified into
      that section under that name: every resource lands, under its arc name
      and not its logical ID, and nothing else is added. */
  lemma Membership(rs: seq<Resource>, p: Pragma, n: string)
    ensures n in OrganizeByPragma(rs)[p]
        <==> exists i :: 0 <= i < |rs| && DeriveArcNameAndPragma(rs[i].logicalId) == Classification(n, p)
  {
    var es := Entries(rs);
    FoldMembership(es, p, n);
    if exists i :: 0 <= i < |es| && es[i].pragma == p && es[i].arcName == n {
      var i :| 0 <= i < |es| && es[i].pragma == p && es[i].arcName == n;
      assert DeriveArcNameAndPragma(rs[i].logicalId) == Classification(n, p);
    }
    if exists i :: 0 <= i < |rs| && DeriveArcNameAndPragma(rs[i].logicalId) == Classification(n, p) {
      var i :| 0 <= i < |rs| && DeriveArcNameAndPragma(rs[i].logicalId) == Classification(n, p);
      assert es[i].pragma == p && es[i].arcName == n;
    }
  }

  /** Last write wins: the value under a key is the physical ID, unchanged,
      of the last resource classified into that section under that name. */
  lemma LastWriteWins(rs: seq<Resource>, i: nat)
    requires i < |rs|
    requires forall j :: i < j < |rs| ==> DeriveArcNameAndPragma(rs[j].logicalId) != DeriveArcNameAndPragma(rs[i].logicalId)
    ensures var c := DeriveArcNameAndPragma(rs[i].logicalId);
      c.arcName in OrganizeByPragma(rs)[c.pragma]
      && OrganizeByPragma(rs)[c.pragma][c.arcName] == rs[i].physicalId
  {
    var es := Entries(rs);
    assert IsLastFor(es, i) by {
      forall j | i < j < |es|
        ensures es[j].pragma != es[i].pragma || es[j].arcName != es[i].arcName
      {
        assert DeriveArcNameAndPragma(rs[j].logicalId) != DeriveArcNameAndPragma(rs[i].logicalId);
      }
    }
    FoldLastWins(es, i);
  }

  /** Every value stored is the physical ID of a resource classified into that
      section under that key. */
  lemma ValueProvenance(rs: seq<Resource>, p: Pragma, n: string)
    requires n in OrganizeByPragma(rs)[p]
    ensures exists i :: 0 <= i < |rs| && DeriveArcNameAndPragma(rs[i].logicalId) == Classification(n, p)
                        && OrganizeByPragma(rs)[p][n] == rs[i].physicalId
  {
    var es := Entries(rs);
    FoldProvenance(es, p, n);
    var i :| 0 <= i < |es| && es[i].pragma == p && es[i].arcName == n && Fold(es)[p][n] == es[i].physicalId;
    assert DeriveArcNameAndPragma(rs[i].logicalId) == Classification(n, p);
  }

  /** A section holds at most as many keys as there are resources classified
      into it, and exactly as many when their arc names are distinct; a
      section no resource is classified into stays empty. */
  lemma SectionSize(rs: seq<Resource>, p: Pragma)
    ensures |OrganizeByPragma(rs)[p]| <= CountIn(Entries(rs), p)
    ensures DistinctNamesIn(Entries(rs), p) ==> |OrganizeByPragma(rs)[p]| == CountIn(Entries(rs), p)
    ensures CountIn(Entries(rs), p) == 0 ==> OrganizeByPragma(rs)[p] == map[]
  {
    FoldSize(Entries(rs), p);
  }

  /** When resources classified alike carry the same physical ID, the order
      of the resources does not matter. */
  lemma OrderIrrelevant(rs1: seq<Resource>, rs2: seq<Resource>)
    requires multiset(rs1) == multiset(rs2)
    requires NoCollisions(Entries(rs1))
    ensures OrganizeByPragma(rs1) == OrganizeByPragma(rs2)
  {
    EntriesPermute(rs1, rs2);
    FoldOrderIrrelevant(Entries(rs1), Entries(rs2));
  }

  lemma EntriesPermute(rs1: seq<Resource>, rs2: seq<Resource>)
    requires multiset(rs1) == multiset(rs2)
    ensures multiset(Entries(rs1)) == multiset(Entries(rs2))
  {
    MapPermute(rs1, rs2, Classify);
  }


  /** Mapping a function over two permutations of each other gives two
      permutations of each other. */
  lemma {:induction false} MapPermute<A, B>(xs: seq<A>, ys: seq<A>, f: A -> B)
    requires multiset(xs) == multiset(ys)
    ensures multiset(MapSeq(xs, f)) == multiset(MapSeq(ys, f))
    decreases |xs|
  {
    if xs == [] {
      assert |ys| == |multiset(ys)| == 0;
      assert MapSeq(xs, f) == [] && MapSeq(ys, f) == [];
    } else {
      var x := xs[0];
      assert x in multiset(ys);
      var k :| 0 <= k < |ys| && ys[k] == x;
      var front, back := ys[..k], ys[k + 1..];
      RestOfPermutation(xs, ys, k);
      MapPermute(xs[1..], front + back, f);
      assert xs == [x] + xs[1..];
      assert ys == front + [x] + back;
      calc {
        multiset(MapSeq(xs, f));
        { MapSeqAppend([x], xs[1..], f); }
        multiset(MapSeq([x], f)) + multiset(MapSeq(xs[1..], f));
        multiset(MapSeq([x], f)) + multiset(MapSeq(front + back, f));
        { MapSeqAppend(front, back, f); }
        multiset(MapSeq([x], f)) + multiset(MapSeq(front, f)) + multiset(MapSeq(back, f));
        multiset(MapSeq(front, f)) + multiset(MapSeq([x], f)) + multiset(MapSeq(back, f));
        { MapSeqAppend(front, [x], f); }
        multiset(MapSeq(front + [x], f)) + multiset(MapSeq(back, f));
        { MapSeqAppend(front + [x], back, f); }
        multiset(MapSeq(ys, f));
      }
    }
  }

  /** Taking the same element out of two permutations leaves permutations. */
  lemma RestOfPermutation<A>(xs: seq<A>, ys: seq<A>, k: nat)
    requires multiset(xs) == multiset(ys) && xs != [] && k < |ys| && ys[k] == xs[0]
    ensures multiset(xs[1..]) == multiset(ys[..k] + ys[k + 1..])
  {
    var x := xs[0];
    var front, back := ys[..k], ys[k + 1..];
    assert xs == [x] + xs[1..];
    assert ys == front + [x] + back;
    assert multiset(xs) == multiset{x} + multiset(xs[1..]);
    assert multiset(ys) == multiset(front) + multiset{x} + multiset(back);
    assert multiset(front + back) == multiset(front) + multiset(back);
    MultisetRegroup(multiset(front), multiset{x}, multiset(back));
    MultisetCancel(multiset{x}, multiset(xs[1..]), multiset(front + back));
  }

  lemma MultisetRegroup<A>(f: multiset<A>, m: multiset<A>, b: multiset<A>)
    ensures f + m + b == m + (f + b)
  {
  }

  lemma MultisetCancel<A>(m: multiset<A>, a: multiset<A>, b: multiset<A>)
    requires m + a == m + b
    ensures a == b
  {
    forall e
      ensures a[e] == b[e]
    {
      assert (m + a)[e] == (m + b)[e];
    }
  }

  lemma MapSeqAppend<A, B>(a: seq<A>, b: seq<A>, f: A -> B)
    ensures MapSeq(a + b, f) == MapSeq(a, f) + MapSeq(b, f)
  {
    var l, r := MapSeq(a + b, f), MapSeq(a, f) + MapSeq(b, f);
    forall i | 0 <= i < |l|
      ensures l[i] == r[i]
    {
      if i < |a| {
        assert (a + b)[i] == a[i];
      } else {
        assert (a + b)[i] == b[i - |a|];
      }
    }
  }
}
