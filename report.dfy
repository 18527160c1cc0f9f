/** What both checkers report: every unresolved name once, in sorted order,
    with the places that use it. A place is kept as a record rather than as
    the printed "Referenced from: ..." line. */
module Report {
  import opened Wrappers

  /** One referencing element: its file, its local tag, its `name`
      attribute when present and non-empty, and its source line. */
  datatype Occurrence = Occurrence(file: string, tagName: string, elemName: Option<string>, line: Option<int>)

  /** An occurrence filed under the raw string it references. */
  datatype Site = Site(key: string, occurrence: Occurrence)

  /** The distinct keys of `sites`. */
  function Keys(sites: seq<Site>): set<string>
  {
    if sites == [] then {}
    else Keys(sites[..|sites| - 1]) + {sites[|sites| - 1].key}
  }

  /** The occurrences filed under `key`, in the order of `sites`. */
  function OccurrencesOf(sites: seq<Site>, key: string): seq<Occurrence>
  {
    if sites == [] then []
    else
      var last := sites[|sites| - 1];
      OccurrencesOf(sites[..|sites| - 1], key) + (if last.key == key then [last.occurrence] else [])
  }

  lemma KeysConcat(front: seq<Site>, back: seq<Site>)
    ensures Keys(front + back) == Keys(front) + Keys(back)
    decreases |back|
  {
    if back == [] {
      assert front + back == front;
    } else {
      var init, last := back[..|back| - 1], back[|back| - 1];
      KeysConcat(front, init);
      assert (front + back)[..|front + back| - 1] == front + init;
      assert (front + back)[|front + back| - 1] == last;
    }
  }

  /** A key has occurrences exactly when some site carries it. */
  lemma {:induction false} KeysHaveOccurrences(sites: seq<Site>, key: string)
    ensures key in Keys(sites) <==> OccurrencesOf(sites, key) != []
    ensures key in Keys(sites) <==> exists i :: 0 <= i < |sites| && sites[i].key == key
  {
    if sites != [] {
      var init := sites[..|sites| - 1];
      KeysHaveOccurrences(init, key);
      if key in Keys(init) {
        var i :| 0 <= i < |init| && init[i].key == key;
        assert sites[i].key == key;
      }
      forall i | 0 <= i < |init| && sites[i].key == key
        ensures key in Keys(init)
      {
        assert init[i].key == key;
      }
    }
  }

  /** `groups` maps each key of `sites` to its occurrences in order, and has
      no other key: what `missing_refs` holds after `sites` were appended. */
  ghost predicate IsGrouping(groups: map<string, seq<Occurrence>>, sites: seq<Site>) {
    && (forall k :: k in groups <==> k in Keys(sites))
    && (forall k :: k in groups ==> groups[k] == OccurrencesOf(sites, k))
  }

  /** `groups.setdefault(key, []).append(occurrence)`. */
  function Append(groups: map<string, seq<Occurrence>>, site: Site): map<string, seq<Occurrence>>
  {
    groups[site.key := (if site.key in groups then groups[site.key] else []) + [site.occurrence]]
  }

  /** Appending a site to the grouping of `sites` gives the grouping of
      `sites + [site]`. */
  lemma AppendGroups(groups: map<string, seq<Occurrence>>, sites: seq<Site>, site: Site)
    requires IsGrouping(groups, sites)
    ensures IsGrouping(Append(groups, site), sites + [site])
  {
    assert (sites + [site])[..|sites|] == sites;
    KeysHaveOccurrences(sites, site.key);
  }

  // ---------------------------------------------------------------------
  // Python's ordering of `str` values and `sorted()`

  /** `a < b` on Python strings: lexicographic by code point, a proper
      prefix coming first. */
  predicate Below(a: string, b: string)
    decreases |a|
  {
    if a == [] then b != []
    else if b == [] then false
    else if a[0] != b[0] then a[0] < b[0]
    else Below(a[1..], b[1..])
  }

  lemma {:induction false} BelowIrreflexive(a: string)
    ensures !Below(a, a)
    decreases |a|
  {
    if a != [] {
      BelowIrreflexive(a[1..]);
    }
  }

  lemma {:induction false} BelowTransitive(a: string, b: string, c: string)
    requires Below(a, b) && Below(b, c)
    ensures Below(a, c)
    decreases |a|
  {
    if a != [] && b != [] && c != [] && a[0] == b[0] && b[0] == c[0] {
      BelowTransitive(a[1..], b[1..], c[1..]);
    }
  }

  lemma {:induction false} BelowTotal(a: string, b: string)
    requires a != b
    ensures Below(a, b) || Below(b, a)
    decreases |a|
  {
    if a != [] && b != [] && a[0] == b[0] {
      assert a == [a[0]] + a[1..] && b == [b[0]] + b[1..];
      BelowTotal(a[1..], b[1..]);
    }
  }

  /** Every finite non-empty set of strings has a least element. */
  lemma {:induction false} LeastExists(s: set<string>)
    requires s != {}
    ensures exists m :: m in s && forall k :: k in s && k != m ==> Below(m, k)
    decreases |s|
  {
    var x :| x in s;
    var rest := s - {x};
    if rest == {} {
      assert forall k :: k in s && k != x ==> k in rest;
    } else {
      LeastExists(rest);
      var m :| m in rest && forall k :: k in rest && k != m ==> Below(m, k);
      if Below(x, m) {
        forall k | k in s && k != x
          ensures Below(x, k)
        {
          if k != m {
            BelowTransitive(x, m, k);
          }
        }
      } else {
        BelowTotal(x, m);
        assert forall k :: k in s && k != m ==> Below(m, k);
      }
    }
  }

  ghost predicate StrictlySorted(ks: seq<string>) {
    forall i, j :: 0 <= i < j < |ks| ==> Below(ks[i], ks[j])
  }

  /** `sorted(keys)`: the keys in increasing order, each exactly once. */
  method SortedKeys(keys: set<string>) returns (ks: seq<string>)
    ensures StrictlySorted(ks)
    ensures forall k :: k in ks <==> k in keys
    ensures |ks| == |keys|
  {
    ks := [];
    var rest := keys;
    while rest != {}
      invariant rest <= keys
      invariant forall k :: k in keys <==> k in ks || k in rest
      invariant forall k :: k in ks ==> k !in rest
      invariant StrictlySorted(ks)
      invariant forall i, k :: 0 <= i < |ks| && k in rest ==> Below(ks[i], k)
      invariant |ks| + |rest| == |keys|
      decreases |rest|
    {
      LeastExists(rest);
      var m :| m in rest && forall k :: k in rest && k != m ==> Below(m, k);
      ks := ks + [m];
      rest := rest - {m};
    }
  }

  /** One printed block: an unresolved name and the places that use it. */
  datatype Group = Group(key: string, occurrences: seq<Occurrence>)

  /** `listed` shows every key of `sites` once, in sorted order, each with
      all of its occurrences in the order of `sites`. */
  ghost predicate ListsSites(listed: seq<Group>, sites: seq<Site>) {
    && (forall i, j :: 0 <= i < j < |listed| ==> Below(listed[i].key, listed[j].key))
    && (forall i :: 0 <= i < |listed| ==>
          listed[i].key in Keys(sites) && listed[i].occurrences == OccurrencesOf(sites, listed[i].key))
    && (forall k :: k in Keys(sites) ==> exists i :: 0 <= i < |listed| && listed[i].key == k)
  }

  /** A listing built from the sorted keys of a grouping lists its sites. */
  lemma ListingOfSortedKeys(groups: map<string, seq<Occurrence>>, sites: seq<Site>, ks: seq<string>, listed: seq<Group>)
    requires IsGrouping(groups, sites)
    requires StrictlySorted(ks) && forall k :: k in ks <==> k in groups
    requires |listed| == |ks| && forall j :: 0 <= j < |ks| ==> listed[j] == Group(ks[j], groups[ks[j]])
    ensures ListsSites(listed, sites)
  {
    forall i, j | 0 <= i < j < |listed|
      ensures Below(listed[i].key, listed[j].key)
    {
      assert listed[i].key == ks[i] && listed[j].key == ks[j];
    }
    forall i | 0 <= i < |listed|
      ensures listed[i].key in Keys(sites) && listed[i].occurrences == OccurrencesOf(sites, listed[i].key)
    {
      assert ks[i] in groups;
    }
    forall k | k in Keys(sites)
      ensures exists i :: 0 <= i < |listed| && listed[i].key == k
    {
      assert k in groups;
      assert k in ks;
      var i :| 0 <= i < |ks| && ks[i] == k;
      assert listed[i].key == k;
    }
  }

  /** The groups of `keys`, in the order of `keys`. */
  method GroupsInOrder(groups: map<string, seq<Occurrence>>, ks: seq<string>) returns (listed: seq<Group>)
    requires forall k :: k in ks ==> k in groups
    ensures |listed| == |ks|
    ensures forall j :: 0 <= j < |ks| ==> listed[j] == Group(ks[j], groups[ks[j]])
  {
    listed := [];
    for i := 0 to |ks|
      invariant |listed| == i
      invariant forall j :: 0 <= j < i ==> listed[j] == Group(ks[j], groups[ks[j]])
    {
      listed := listed + [Group(ks[i], groups[ks[i]])];
    }
  }

  /** The report loop `for m in sorted(missing_refs): ...` over the grouping
      of `sites`. */
  method ListGroups(groups: map<string, seq<Occurrence>>, ghost sites: seq<Site>) returns (listed: seq<Group>)
    requires IsGrouping(groups, sites)
    ensures ListsSites(listed, sites)
    ensures |listed| == |groups|
  {
    var ks := SortedKeys(groups.Keys);
    listed := GroupsInOrder(groups, ks);
    ListingOfSortedKeys(groups, sites, ks, listed);
  }
}
