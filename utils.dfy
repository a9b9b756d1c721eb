/** The de-duplicating helpers `uniq`, `uniqWith`, `uniqBy` and the graph
    builder `buildFamilyAndRelations` of src/utils.ts. */
module Utils {
  import opened Wrappers
  import opened Seqs

  // ---------------------------------------------------------------------------
  // uniqBy
  // ---------------------------------------------------------------------------

  /** The set of keys the elements of `s` have. */
  function KeysOf<T, K(==)>(s: seq<T>, key: T -> K): set<K>
  {
    if s == [] then {} else KeysOf(s[..|s| - 1], key) + {key(s[|s| - 1])}
  }

  lemma {:induction false} KeysOfMembership<T, K>(s: seq<T>, key: T -> K, k: K)
    ensures k in KeysOf(s, key) <==> exists i :: 0 <= i < |s| && key(s[i]) == k
  {
    if s != [] {
      var init := s[..|s| - 1];
      KeysOfMembership(init, key, k);
      if exists i :: 0 <= i < |init| && key(init[i]) == k {
        var i :| 0 <= i < |init| && key(init[i]) == k;
        assert key(s[i]) == k;
      }
      if exists i :: 0 <= i < |s| && key(s[i]) == k {
        var i :| 0 <= i < |s| && key(s[i]) == k;
        if i < |init| {
          assert key(init[i]) == k;
        }
      }
    }
  }

  /** No two elements of `s` share a key. */
  predicate DistinctKeys<T, K(==)>(s: seq<T>, key: T -> K)
  {
    forall i, j :: 0 <= i < j < |s| ==> key(s[i]) != key(s[j])
  }

  /** What `uniqBy(array, iteratee)` returns: the elements whose key does not
      occur among the elements before them. */
  function KeepFirstByKey<T, K(==)>(s: seq<T>, key: T -> K): (r: seq<T>)
  {
    if s == [] then []
    else
      var init := s[..|s| - 1];
      if key(s[|s| - 1]) in KeysOf(init, key) then KeepFirstByKey(init, key)
      else KeepFirstByKey(init, key) + [s[|s| - 1]]
  }

  /** `uniqBy`: a filter over the input that remembers, in a mutable set, the
      keys it has already let through. */
  method UniqBy<T, K(==)>(s: seq<T>, key: T -> K) returns (r: seq<T>)
    ensures r == KeepFirstByKey(s, key)
  {
    var seen: set<K> := {};
    r := [];
    for i := 0 to |s|
      invariant seen == KeysOf(s[..i], key)
      invariant r == KeepFirstByKey(s[..i], key)
    {
      assert s[..i + 1][..i] == s[..i];
      var k := key(s[i]);
      if k !in seen {
        seen := seen + {k};
        r := r + [s[i]];
      }
    }
    assert s[..|s|] == s;
  }

  /** `array.findIndex(item => iteratee(item) == k)`: the first position
      whose key is `k`, or -1. */
  function IndexOfKey<T, K(==)>(s: seq<T>, key: T -> K, k: K): (r: int)
    ensures -1 <= r < |s|
    ensures 0 <= r ==> key(s[r]) == k && forall j :: 0 <= j < r ==> key(s[j]) != k
    ensures r < 0 <==> k !in KeysOf(s, key)
  {
    KeysOfMembership(s, key, k);
    FindIndex(s, e => key(e) == k)
  }

  /** `array.find(item => iteratee(item) == k)`: the first element whose key is `k`. */
  function FirstWithKey<T, K(==)>(s: seq<T>, key: T -> K, k: K): Option<T>
  {
    var i := IndexOfKey(s, key, k);
    if i < 0 then None else Some(s[i])
  }

  lemma FirstWithKeyAppend<T, K>(a: seq<T>, x: T, key: T -> K, k: K)
    ensures FirstWithKey(a + [x], key, k)
            == if FirstWithKey(a, key, k).Some? then FirstWithKey(a, key, k)
               else if key(x) == k then Some(x) else None
  {
    FindIndexAppend(a, x, e => key(e) == k);
    var i := IndexOfKey(a, key, k);
    if 0 <= i {
      assert (a + [x])[i] == a[i];
    }
  }

  lemma KeysOfAppend<T, K>(a: seq<T>, x: T, key: T -> K)
    ensures KeysOf(a + [x], key) == KeysOf(a, key) + {key(x)}
  {
    assert (a + [x])[..|a|] == a;
  }

  lemma DistinctKeysAppend<T, K>(a: seq<T>, x: T, key: T -> K)
    requires DistinctKeys(a, key) && key(x) !in KeysOf(a, key)
    ensures DistinctKeys(a + [x], key)
  {
    KeysOfMembership(a, key, key(x));
    forall i, j | 0 <= i < j < |a| + 1 ensures key((a + [x])[i]) != key((a + [x])[j]) {
      assert (a + [x])[i] == a[i];
      if j < |a| {
        assert (a + [x])[j] == a[j];
      }
    }
  }

  /** The kept elements carry exactly the keys of the input. */
  lemma {:induction false} KeepFirstByKeyKeySet<T, K>(s: seq<T>, key: T -> K)
    ensures KeysOf(KeepFirstByKey(s, key), key) == KeysOf(s, key)
  {
    if s != [] {
      var init, x := s[..|s| - 1], s[|s| - 1];
      KeepFirstByKeyKeySet(init, key);
      if key(x) !in KeysOf(init, key) {
        KeysOfAppend(KeepFirstByKey(init, key), x, key);
      }
    }
  }

  /** The kept elements carry pairwise distinct keys, and exactly the keys of the input. */
  lemma {:induction false} KeepFirstByKeyKeys<T, K>(s: seq<T>, key: T -> K)
    ensures DistinctKeys(KeepFirstByKey(s, key), key)
    ensures KeysOf(KeepFirstByKey(s, key), key) == KeysOf(s, key)
  {
    KeepFirstByKeyKeySet(s, key);
    if s != [] {
      var init, x := s[..|s| - 1], s[|s| - 1];
      KeepFirstByKeyKeys(init, key);
      if key(x) !in KeysOf(init, key) {
        DistinctKeysAppend(KeepFirstByKey(init, key), x, key);
      }
    }
  }

  /** The kept elements appear in the input, in the same order. */
  lemma {:induction false} KeepFirstByKeySubsequence<T, K>(s: seq<T>, key: T -> K)
    ensures IsSubsequence(KeepFirstByKey(s, key), s)
  {
    if s != [] {
      var init, x := s[..|s| - 1], s[|s| - 1];
      var r' := KeepFirstByKey(init, key);
      KeepFirstByKeySubsequence(init, key);
      if key(x) !in KeysOf(init, key) {
        assert (r' + [x])[..|r'|] == r';
      }
    }
  }

  /** For every key, the kept element with that key is the first input element
      with that key, and a key absent from the input is absent from the output. */
  lemma {:induction false} KeepFirstByKeyFirst<T, K>(s: seq<T>, key: T -> K, k: K)
    ensures FirstWithKey(KeepFirstByKey(s, key), key, k) == FirstWithKey(s, key, k)
  {
    if s != [] {
      var init, x := s[..|s| - 1], s[|s| - 1];
      var r' := KeepFirstByKey(init, key);
      assert s == init + [x];
      KeepFirstByKeyFirst(init, key, k);
      FirstWithKeyAppend(init, x, key, k);
      KeepFirstByKeyKeys(init, key);
      if key(x) !in KeysOf(init, key) {
        FirstWithKeyAppend(r', x, key, k);
      }
    }
  }

  /** A sequence whose keys are already distinct is left unchanged. */
  lemma {:induction false} KeepFirstByKeyDistinct<T, K>(s: seq<T>, key: T -> K)
    requires DistinctKeys(s, key)
    ensures KeepFirstByKey(s, key) == s
  {
    if s != [] {
      var init, x := s[..|s| - 1], s[|s| - 1];
      assert DistinctKeys(init, key);
      KeepFirstByKeyDistinct(init, key);
      KeysOfMembership(init, key, key(x));
      assert init + [x] == s;
    }
  }

  /** Applying `uniqBy` twice gives what applying it once gives. */
  lemma KeepFirstByKeyIdempotent<T, K>(s: seq<T>, key: T -> K)
    ensures KeepFirstByKey(KeepFirstByKey(s, key), key) == KeepFirstByKey(s, key)
  {
    KeepFirstByKeyKeys(s, key);
    KeepFirstByKeyDistinct(KeepFirstByKey(s, key), key);
  }

  /** A sequence with distinct keys has as many elements as keys. */
  lemma {:induction false} DistinctKeysCount<T, K>(s: seq<T>, key: T -> K)
    requires DistinctKeys(s, key)
    ensures |KeysOf(s, key)| == |s|
  {
    if s != [] {
      var init := s[..|s| - 1];
      assert DistinctKeys(init, key);
      DistinctKeysCount(init, key);
      KeysOfMembership(init, key, key(s[|s| - 1]));
    }
  }

  /** `uniqBy` keeps one element per distinct key of the input. */
  lemma KeepFirstByKeyLength<T, K>(s: seq<T>, key: T -> K)
    ensures |KeepFirstByKey(s, key)| == |KeysOf(s, key)|
  {
    KeepFirstByKeyKeys(s, key);
    DistinctKeysCount(KeepFirstByKey(s, key), key);
  }

  /** What `uniqBy` keeps of a prefix is a prefix of what it keeps of the whole. */
  lemma {:induction false} KeepFirstByKeyPrefix<T, K>(s: seq<T>, key: T -> K, i: int)
    requires 0 <= i <= |s|
    ensures KeepFirstByKey(s[..i], key) <= KeepFirstByKey(s, key)
    decreases |s|
  {
    if i < |s| {
      var init := s[..|s| - 1];
      assert init[..i] == s[..i];
      KeepFirstByKeyPrefix(init, key, i);
    } else {
      assert s[..i] == s;
    }
  }

  /** The position of a key in what `uniqBy` keeps is the number of distinct
      keys that occur before the key's first occurrence in the input. */
  lemma KeepFirstByKeyPosition<T, K>(s: seq<T>, key: T -> K, k: K)
    ensures 0 <= IndexOfKey(s, key, k) ==>
              IndexOfKey(KeepFirstByKey(s, key), key, k) == |KeysOf(s[..IndexOfKey(s, key, k)], key)|
  {
    var p := IndexOfKey(s, key, k);
    if p < 0 {
      return;
    }
    var r, q := KeepFirstByKey(s, key), KeepFirstByKey(s[..p], key);
    assert s[..p + 1][..p] == s[..p];
    KeysOfMembership(s[..p], key, k);
    assert KeepFirstByKey(s[..p + 1], key) == q + [s[p]];
    KeepFirstByKeyPrefix(s, key, p + 1);
    assert r[|q|] == s[p];
    KeepFirstByKeyKeySet(s[..p], key);
    forall j | 0 <= j < |q| ensures key(r[j]) != k {
      assert r[j] == q[j];
      KeysOfMembership(q, key, k);
    }
    KeepFirstByKeyLength(s[..p], key);
  }

  // ---------------------------------------------------------------------------
  // uniq
  // ---------------------------------------------------------------------------

  function Identity<T>(x: T): T
  {
    x
  }

  /** `Array.from(new Set(array))`: a set iterates in insertion order, so this is
      the first occurrence of each value, in order. */
  function Uniq<T(==)>(s: seq<T>): (r: seq<T>)
    ensures IsSubsequence(r, s)
    ensures forall i, j :: 0 <= i < j < |r| ==> r[i] != r[j]
  {
    KeepFirstByKeySubsequence(s, Identity);
    KeepFirstByKeyKeys(s, Identity);
    KeepFirstByKey(s, Identity)
  }

  lemma UniqSpec<T>(s: seq<T>)
    ensures IsSubsequence(Uniq(s), s)
    ensures forall i, j :: 0 <= i < j < |Uniq(s)| ==> Uniq(s)[i] != Uniq(s)[j]
    ensures forall x :: x in Uniq(s) <==> x in s
  {
    var r := Uniq(s);
    KeepFirstByKeySubsequence(s, Identity);
    KeepFirstByKeyKeys(s, Identity);
    forall x
      ensures x in r <==> x in s
    {
      KeysOfMembership(r, Identity, x);
      KeysOfMembership(s, Identity, x);
    }
  }

  // ---------------------------------------------------------------------------
  // uniqWith
  // ---------------------------------------------------------------------------

  /** `acc.some(existingItem => comparator(existingItem, x))`. */
  predicate AnyMatch<T>(acc: seq<T>, x: T, comparator: (T, T) -> bool)
  {
    exists j :: 0 <= j < |acc| && comparator(acc[j], x)
  }

  /** What `uniqWith(array, comparator)` returns: the `reduce` over the input
      that appends an element unless the comparator matches it with one already kept. */
  function KeepFirstWith<T>(s: seq<T>, comparator: (T, T) -> bool): (r: seq<T>)
    ensures |r| <= |s|
    ensures forall i :: 0 <= i < |r| ==> r[i] in s
  {
    if s == [] then []
    else
      var acc := KeepFirstWith(s[..|s| - 1], comparator);
      if AnyMatch(acc, s[|s| - 1], comparator) then acc else acc + [s[|s| - 1]]
  }

  /** `uniqWith`: grows an accumulator in place with `push`. */
  method UniqWith<T>(s: seq<T>, comparator: (T, T) -> bool) returns (acc: seq<T>)
    ensures acc == KeepFirstWith(s, comparator)
  {
    acc := [];
    for i := 0 to |s|
      invariant acc == KeepFirstWith(s[..i], comparator)
    {
      assert s[..i + 1][..i] == s[..i];
      var curr := s[i];
      if !AnyMatch(acc, curr, comparator) {
        acc := acc + [curr];
      }
    }
    assert s[..|s|] == s;
  }

  lemma {:induction false} KeepFirstWithSubsequence<T>(s: seq<T>, comparator: (T, T) -> bool)
    ensures IsSubsequence(KeepFirstWith(s, comparator), s)
  {
    if s != [] {
      var init, x := s[..|s| - 1], s[|s| - 1];
      var r' := KeepFirstWith(init, comparator);
      KeepFirstWithSubsequence(init, comparator);
      if !AnyMatch(r', x, comparator) {
        assert (r' + [x])[..|r'|] == r';
      }
    }
  }

  lemma {:induction false} KeepFirstWithUnmatched<T>(s: seq<T>, comparator: (T, T) -> bool)
    ensures forall i, j :: 0 <= i < j < |KeepFirstWith(s, comparator)| ==>
              !comparator(KeepFirstWith(s, comparator)[i], KeepFirstWith(s, comparator)[j])
  {
    if s != [] {
      var init, x := s[..|s| - 1], s[|s| - 1];
      var r' := KeepFirstWith(init, comparator);
      KeepFirstWithUnmatched(init, comparator);
      if !AnyMatch(r', x, comparator) {
        var r := r' + [x];
        forall i, j | 0 <= i < j < |r| ensures !comparator(r[i], r[j]) {
          assert r[i] == r'[i];
          if j < |r'| {
            assert r[j] == r'[j];
          }
        }
      }
    }
  }

  lemma {:induction false} KeepFirstWithCovers<T>(s: seq<T>, comparator: (T, T) -> bool)
    ensures forall i :: 0 <= i < |s| ==>
              s[i] in KeepFirstWith(s, comparator) || AnyMatch(KeepFirstWith(s, comparator), s[i], comparator)
  {
    if s != [] {
      var init, x := s[..|s| - 1], s[|s| - 1];
      var r' := KeepFirstWith(init, comparator);
      var r := KeepFirstWith(s, comparator);
      KeepFirstWithCovers(init, comparator);
      forall i | 0 <= i < |s| ensures s[i] in r || AnyMatch(r, s[i], comparator) {
        if i < |init| {
          assert s[i] == init[i];
          if !(s[i] in r') {
            var j :| 0 <= j < |r'| && comparator(r'[j], s[i]);
            assert r[j] == r'[j];
          }
        }
      }
    }
  }

  /** The kept elements are a subsequence of the input, never longer than it;
      the comparator holds of no kept pair taken in order; and every dropped
      element is matched by some kept element. */
  lemma KeepFirstWithSpec<T>(s: seq<T>, comparator: (T, T) -> bool)
    ensures IsSubsequence(KeepFirstWith(s, comparator), s)
    ensures |KeepFirstWith(s, comparator)| <= |s|
    ensures forall i, j :: 0 <= i < j < |KeepFirstWith(s, comparator)| ==>
              !comparator(KeepFirstWith(s, comparator)[i], KeepFirstWith(s, comparator)[j])
    ensures forall i :: 0 <= i < |s| ==>
              s[i] in KeepFirstWith(s, comparator) || AnyMatch(KeepFirstWith(s, comparator), s[i], comparator)
  {
    KeepFirstWithSubsequence(s, comparator);
    SubsequenceElements(KeepFirstWith(s, comparator), s);
    KeepFirstWithUnmatched(s, comparator);
    KeepFirstWithCovers(s, comparator);
  }

  // ---------------------------------------------------------------------------
  // buildFamilyAndRelations
  // ---------------------------------------------------------------------------

  /** A badge; the source field `label` is `labelText` here (`label` is a Dafny keyword). */
  datatype Badge = Badge(bgColor: string, labelText: string, textColor: string)

  datatype Sex = M | F

  /** `imageUrl?: string | null`: left out, `null`, or a URL. */
  datatype ImageUrl = Undefined | Null | Url(url: string)

  datatype MemberData = MemberData(
    badges: seq<Badge>,
    sex: Sex,
    imageUrl: ImageUrl,
    subtitles: seq<string>,
    title: string,
    titleBgColor: string,
    titleTextColor: string)

  datatype RawFamilyMember = RawFamilyMember(id: string, data: MemberData)

  datatype FamilyMember = FamilyMember(id: string, data: MemberData)

  /** The relation kinds are an enumeration of the layout code, which is not
      part of this model; they are carried as their names. */
  type RelationType = string

  datatype RawFamilyRelation = RawFamilyRelation(
    fromId: string,
    toId: string,
    relationType: RelationType,
    prettyType: string,
    isInnerFamily: bool)

  datatype FamilyRelation = FamilyRelation(
    id: string,
    to: string,
    from: string,
    relationType: RelationType,
    prettyType: string,
    isInnerFamily: bool)

  /** `Object.fromEntries(entries)`: later entries overwrite earlier ones. */
  function FromEntries<V>(entries: seq<(string, V)>): (m: map<string, V>)
    ensures entries != [] ==> entries[|entries| - 1].0 in m && m[entries[|entries| - 1].0] == entries[|entries| - 1].1
  {
    if entries == [] then map[]
    else
      var last := entries[|entries| - 1];
      FromEntries(entries[..|entries| - 1])[last.0 := last.1]
  }

  /** Entry `i` is the last one with its key. */
  predicate IsLastOfKey<V>(entries: seq<(string, V)>, i: int)
  {
    0 <= i < |entries| && forall j :: i < j < |entries| ==> entries[j].0 != entries[i].0
  }

  lemma {:induction false} FromEntriesKeys<V>(entries: seq<(string, V)>, k: string)
    ensures k in FromEntries(entries) <==> exists i :: 0 <= i < |entries| && entries[i].0 == k
  {
    if entries != [] {
      var init := entries[..|entries| - 1];
      FromEntriesKeys(init, k);
      if exists i :: 0 <= i < |init| && init[i].0 == k {
        var i :| 0 <= i < |init| && init[i].0 == k;
        assert entries[i].0 == k;
      }
      if exists i :: 0 <= i < |entries| && entries[i].0 == k {
        var i :| 0 <= i < |entries| && entries[i].0 == k;
        if i < |init| {
          assert init[i].0 == k;
        }
      }
    }
  }

  lemma {:induction false} FromEntriesLastWins<V>(entries: seq<(string, V)>, i: int)
    requires IsLastOfKey(entries, i)
    ensures entries[i].0 in FromEntries(entries) && FromEntries(entries)[entries[i].0] == entries[i].1
  {
    var init := entries[..|entries| - 1];
    if i < |init| {
      assert IsLastOfKey(init, i);
      FromEntriesLastWins(init, i);
    }
  }

  lemma {:induction false} FromEntriesSize<V>(entries: seq<(string, V)>)
    ensures |FromEntries(entries)| <= |entries|
  {
    if entries != [] {
      FromEntriesSize(entries[..|entries| - 1]);
    }
  }

  /** The keys of the built object are the keys of the entries, and the value
      under a key is that of the last entry with that key. */
  lemma FromEntriesSpec<V>(entries: seq<(string, V)>)
    ensures forall k :: k in FromEntries(entries) <==> exists i :: 0 <= i < |entries| && entries[i].0 == k
    ensures forall i :: IsLastOfKey(entries, i) ==>
              entries[i].0 in FromEntries(entries) && FromEntries(entries)[entries[i].0] == entries[i].1
    ensures |FromEntries(entries)| <= |entries|
  {
    forall k ensures k in FromEntries(entries) <==> exists i :: 0 <= i < |entries| && entries[i].0 == k {
      FromEntriesKeys(entries, k);
    }
    forall i | IsLastOfKey(entries, i)
      ensures entries[i].0 in FromEntries(entries) && FromEntries(entries)[entries[i].0] == entries[i].1
    {
      FromEntriesLastWins(entries, i);
    }
    FromEntriesSize(entries);
  }

  /** With pairwise distinct keys no entry is overwritten. */
  lemma {:induction false} FromEntriesDistinct<V>(entries: seq<(string, V)>)
    requires forall i, j :: 0 <= i < j < |entries| ==> entries[i].0 != entries[j].0
    ensures |FromEntries(entries)| == |entries|
  {
    if entries != [] {
      var init, last := entries[..|entries| - 1], entries[|entries| - 1];
      FromEntriesDistinct(init);
      FromEntriesKeys(init, last.0);
      assert last.0 !in FromEntries(init);
    }
  }

  /** The member object built from one raw record: every data field copied. */
  function BuildMember(raw: RawFamilyMember): (m: FamilyMember)
    ensures m.id == raw.id && m.data == raw.data
  {
    FamilyMember(raw.id, MemberData(
      badges := raw.data.badges,
      sex := raw.data.sex,
      imageUrl := raw.data.imageUrl,
      subtitles := raw.data.subtitles,
      title := raw.data.title,
      titleBgColor := raw.data.titleBgColor,
      titleTextColor := raw.data.titleTextColor))
  }

  /** The key of a relation: `${fromId}-${toId}`. */
  function RelationId(raw: RawFamilyRelation): (id: string)
    ensures |id| == |raw.fromId| + 1 + |raw.toId|
    ensures id[..|raw.fromId|] == raw.fromId && id[|raw.fromId|] == '-' && id[|raw.fromId| + 1..] == raw.toId
  {
    raw.fromId + "-" + raw.toId
  }

  /** The relation object built from one raw record; `to` receives `fromId` and
      `from` receives `toId`, exactly as the source assigns them. */
  function BuildRelation(raw: RawFamilyRelation): (rel: FamilyRelation)
    ensures rel.id == RelationId(raw) == rel.to + "-" + rel.from
    ensures rel.to == raw.fromId && rel.from == raw.toId
    ensures rel.relationType == raw.relationType && rel.prettyType == raw.prettyType
    ensures rel.isInnerFamily == raw.isInnerFamily
  {
    FamilyRelation(
      id := RelationId(raw),
      to := raw.fromId,
      from := raw.toId,
      relationType := raw.relationType,
      prettyType := raw.prettyType,
      isInnerFamily := raw.isInnerFamily)
  }

  function MemberEntries(rawFamily: seq<RawFamilyMember>): seq<(string, FamilyMember)>
  {
    Map(rawFamily, (m: RawFamilyMember) => (m.id, BuildMember(m)))
  }

  function RelationEntries(rawRelation: seq<RawFamilyRelation>): seq<(string, FamilyRelation)>
  {
    Map(rawRelation, (rel: RawFamilyRelation) => (RelationId(rel), BuildRelation(rel)))
  }

  /** Raw member `i` is the last one with its id. */
  predicate IsLastMember(rawFamily: seq<RawFamilyMember>, i: int)
  {
    0 <= i < |rawFamily| && forall j :: i < j < |rawFamily| ==> rawFamily[j].id != rawFamily[i].id
  }

  /** Raw relation `i` is the last one whose computed id is its id. */
  predicate IsLastRelation(rawRelation: seq<RawFamilyRelation>, i: int)
  {
    0 <= i < |rawRelation|
    && forall j :: i < j < |rawRelation| ==> RelationId(rawRelation[j]) != RelationId(rawRelation[i])
  }

  /** `buildFamilyAndRelations(rawFamily, rawRelation)`: the member map and the
      relation map, both keyed by id. */
  function BuildFamilyAndRelations(rawFamily: seq<RawFamilyMember>, rawRelation: seq<RawFamilyRelation>)
    : (r: (map<string, FamilyMember>, map<string, FamilyRelation>))
    // members: one entry per raw id, the last raw member with that id wins
    ensures forall k :: k in r.0 <==> exists i :: 0 <= i < |rawFamily| && rawFamily[i].id == k
    ensures forall k :: k in r.0 ==> r.0[k].id == k
    ensures forall i :: IsLastMember(rawFamily, i) ==> r.0[rawFamily[i].id].data == rawFamily[i].data
    ensures |r.0| <= |rawFamily|
    // relations: one entry per computed id, the last raw relation with that id wins
    ensures forall k :: k in r.1 <==> exists i :: 0 <= i < |rawRelation| && RelationId(rawRelation[i]) == k
    ensures forall k :: k in r.1 ==> r.1[k].id == k && k == r.1[k].to + "-" + r.1[k].from
    ensures forall i :: IsLastRelation(rawRelation, i) ==>
              var rel := r.1[rawRelation[i].fromId + "-" + rawRelation[i].toId];
              && rel.to == rawRelation[i].fromId
              && rel.from == rawRelation[i].toId
              && rel.relationType == rawRelation[i].relationType
              && rel.prettyType == rawRelation[i].prettyType
              && rel.isInnerFamily == rawRelation[i].isInnerFamily
    ensures |r.1| <= |rawRelation|
  {
    MemberMapSpec(rawFamily);
    RelationMapSpec(rawRelation);
    (FromEntries(MemberEntries(rawFamily)), FromEntries(RelationEntries(rawRelation)))
  }

  /** The last entry with key `k`, or -1. */
  function LastIndexOfKey<V>(entries: seq<(string, V)>, k: string): (j: int)
    ensures -1 <= j < |entries|
    ensures 0 <= j ==> entries[j].0 == k && IsLastOfKey(entries, j)
    ensures j < 0 ==> forall i :: 0 <= i < |entries| ==> entries[i].0 != k
  {
    if entries == [] then -1
    else if entries[|entries| - 1].0 == k then |entries| - 1
    else LastIndexOfKey(entries[..|entries| - 1], k)
  }

  /** Every key of the built object holds the value of the last entry with that key. */
  lemma FromEntriesValue<V>(entries: seq<(string, V)>, k: string)
    requires k in FromEntries(entries)
    ensures 0 <= LastIndexOfKey(entries, k)
    ensures FromEntries(entries)[k] == entries[LastIndexOfKey(entries, k)].1
  {
    FromEntriesKeys(entries, k);
    var j := LastIndexOfKey(entries, k);
    FromEntriesLastWins(entries, j);
  }

  lemma MemberMapKeys(rawFamily: seq<RawFamilyMember>, k: string)
    ensures k in FromEntries(MemberEntries(rawFamily)) <==> exists i :: 0 <= i < |rawFamily| && rawFamily[i].id == k
  {
    var entries := MemberEntries(rawFamily);
    FromEntriesKeys(entries, k);
    assert forall i :: 0 <= i < |rawFamily| ==> entries[i].0 == rawFamily[i].id;
  }

  lemma MemberMapSpec(rawFamily: seq<RawFamilyMember>)
    ensures var m := FromEntries(MemberEntries(rawFamily));
            && (forall k :: k in m <==> exists i :: 0 <= i < |rawFamily| && rawFamily[i].id == k)
            && (forall k :: k in m ==> m[k].id == k)
            && (forall i :: IsLastMember(rawFamily, i) ==> m[rawFamily[i].id].data == rawFamily[i].data)
            && |m| <= |rawFamily|
  {
    var entries := MemberEntries(rawFamily);
    var m := FromEntries(entries);
    forall k ensures k in m <==> exists i :: 0 <= i < |rawFamily| && rawFamily[i].id == k {
      MemberMapKeys(rawFamily, k);
    }
    forall i | IsLastMember(rawFamily, i) ensures m[rawFamily[i].id].data == rawFamily[i].data {
      assert IsLastOfKey(entries, i);
      FromEntriesLastWins(entries, i);
    }
    forall k | k in m ensures m[k].id == k {
      FromEntriesValue(entries, k);
    }
    FromEntriesSize(entries);
  }

  lemma RelationMapKeys(rawRelation: seq<RawFamilyRelation>, k: string)
    ensures k in FromEntries(RelationEntries(rawRelation))
            <==> exists i :: 0 <= i < |rawRelation| && RelationId(rawRelation[i]) == k
  {
    var entries := RelationEntries(rawRelation);
    FromEntriesKeys(entries, k);
    assert forall i :: 0 <= i < |rawRelation| ==> entries[i].0 == RelationId(rawRelation[i]);
  }

  lemma RelationMapSpec(rawRelation: seq<RawFamilyRelation>)
    ensures var m := FromEntries(RelationEntries(rawRelation));
            && (forall k :: k in m <==> exists i :: 0 <= i < |rawRelation| && RelationId(rawRelation[i]) == k)
            && (forall k :: k in m ==> m[k].id == k && k == m[k].to + "-" + m[k].from)
            && (forall i :: IsLastRelation(rawRelation, i) ==>
                  m[RelationId(rawRelation[i])] == BuildRelation(rawRelation[i]))
            && |m| <= |rawRelation|
  {
    var entries := RelationEntries(rawRelation);
    var m := FromEntries(entries);
    forall k ensures k in m <==> exists i :: 0 <= i < |rawRelation| && RelationId(rawRelation[i]) == k {
      RelationMapKeys(rawRelation, k);
    }
    forall i | IsLastRelation(rawRelation, i)
      ensures m[RelationId(rawRelation[i])] == BuildRelation(rawRelation[i])
    {
      assert IsLastOfKey(entries, i);
      FromEntriesLastWins(entries, i);
    }
    forall k | k in m ensures m[k].id == k && k == m[k].to + "-" + m[k].from {
      FromEntriesValue(entries, k);
    }
    FromEntriesSize(entries);
  }

  /** Relations whose computed ids are pairwise distinct are all kept. */
  lemma BuildRelationsCount(rawFamily: seq<RawFamilyMember>, rawRelation: seq<RawFamilyRelation>)
    requires forall i, j :: 0 <= i < j < |rawRelation| ==> RelationId(rawRelation[i]) != RelationId(rawRelation[j])
    ensures |BuildFamilyAndRelations(rawFamily, rawRelation).1| == |rawRelation|
  {
    FromEntriesDistinct(RelationEntries(rawRelation));
  }

  /** Members with pairwise distinct ids are all kept. */
  lemma BuildMembersCount(rawFamily: seq<RawFamilyMember>, rawRelation: seq<RawFamilyRelation>)
    requires forall i, j :: 0 <= i < j < |rawFamily| ==> rawFamily[i].id != rawFamily[j].id
    ensures |BuildFamilyAndRelations(rawFamily, rawRelation).0| == |rawFamily|
  {
    FromEntriesDistinct(MemberEntries(rawFamily));
  }

  /** The id concatenation is ambiguous when ids contain a hyphen: "a-b" to "c"
      and "a" to "b-c" both get the id "a-b-c", and the later relation is the
      only one left. */
  lemma HyphenatedIdsCollide(relationType: RelationType, prettyType: string)
    ensures var rels := BuildFamilyAndRelations([], [
              RawFamilyRelation("a-b", "c", relationType, prettyType, false),
              RawFamilyRelation("a", "b-c", relationType, prettyType, true)]).1;
            && rels.Keys == {"a-b-c"}
            && rels["a-b-c"].to == "a"
            && rels["a-b-c"].from == "b-c"
            && rels["a-b-c"].isInnerFamily
  {
    var raw := [
      RawFamilyRelation("a-b", "c", relationType, prettyType, false),
      RawFamilyRelation("a", "b-c", relationType, prettyType, true)];
    assert RelationId(raw[0]) == "a-b-c" == RelationId(raw[1]);
    var entries := RelationEntries(raw);
    assert entries[..1][..0] == [];
    assert entries[..|entries| - 1] == entries[..1];
  }
}
