/** The pure side of the catalogue: the paginated list, the substring search
    and the list removal the delete handler performs, each as a function of
    the store contents, with the facts the handlers rely on. */
module Queries {
  import opened Outcomes
  import opened Books

  function Min(a: int, b: int): (m: int) { if a <= b then a else b }

  /** Where a slice bound lands in a list of length `n`: a negative bound
      counts from the end, and every bound is clamped into `0..n`. */
  function SliceBound(i: int, n: nat): (r: nat)
    ensures r <= n
    ensures 0 <= i ==> r == Min(i, n)
    ensures i < 0 ==> r == if i + n < 0 then 0 else i + n
  {
    if i < 0 then (if i + n < 0 then 0 else i + n)
    else if i > n then n
    else i
  }

  /** The slice `s[start:stop]` of a list: the records between the two
      clamped bounds, and nothing when they cross. */
  function Slice<T>(s: seq<T>, start: int, stop: int): (r: seq<T>)
    ensures |r| == if SliceBound(start, |s|) < SliceBound(stop, |s|)
                   then SliceBound(stop, |s|) - SliceBound(start, |s|) else 0
    ensures forall k :: 0 <= k < |r| ==> SliceBound(start, |s|) + k < |s| && r[k] == s[SliceBound(start, |s|) + k]
  {
    var lo, hi := SliceBound(start, |s|), SliceBound(stop, |s|);
    if lo < hi then s[lo..hi] else []
  }

  /** The paginated list: not found on an empty store whatever the window,
      otherwise the window of `limit` records starting at `skip`. */
  function Page(s: seq<Livro>, skip: int, limit: int): (r: Outcome<seq<Livro>>)
    ensures r.Fail? <==> s == []
    ensures r.Fail? ==> r.error == NotFound
    ensures r.Ok? && 0 <= skip && 0 <= limit ==>
      r.value == s[Min(skip, |s|)..Min(skip + limit, |s|)]
    ensures r.Ok? && 0 <= skip && 0 <= limit ==>
      |r.value| == Min(limit, if skip < |s| then |s| - skip else 0)
    ensures r.Ok? && 0 <= skip && |s| <= skip ==> r.value == []
  {
    if s == [] then Fail(NotFound) else Ok(Slice(s, skip, skip + limit))
  }

  // ---- substring search ----

  /** `needle` sits in `hay` starting at position `k`. */
  predicate OccursAt(needle: string, hay: string, k: nat)
  {
    k + |needle| <= |hay| && hay[k..k + |needle|] == needle
  }

  /** The `in` test on strings: `needle` is a prefix of `hay` or of one of
      its suffixes. */
  predicate IsSubstring(needle: string, hay: string)
    decreases |hay|
  {
    needle <= hay || (|hay| > 0 && IsSubstring(needle, hay[1..]))
  }

  /** The recursive test agrees with the positional definition: it holds
      exactly when the needle occurs at some position of the haystack. */
  lemma {:induction false} IsSubstringIffOccurs(needle: string, hay: string)
    ensures IsSubstring(needle, hay) <==> exists k: nat :: OccursAt(needle, hay, k)
    decreases |hay|
  {
    if needle <= hay {
      assert OccursAt(needle, hay, 0);
    } else if |hay| == 0 {
      forall k: nat ensures !OccursAt(needle, hay, k) {
      }
    } else {
      IsSubstringIffOccurs(needle, hay[1..]);
      forall k: nat | OccursAt(needle, hay[1..], k) ensures OccursAt(needle, hay, k + 1) {
        assert hay[1..][k..k + |needle|] == hay[k + 1..k + 1 + |needle|];
      }
      forall k: nat | OccursAt(needle, hay, k) ensures k > 0 && OccursAt(needle, hay[1..], k - 1) {
        if k == 0 { assert false; }
        assert hay[1..][k - 1..k - 1 + |needle|] == hay[k..k + |needle|];
      }
    }
  }

  /** A filter takes part only when it is given and non-empty. */
  predicate Active(f: Option<string>)
  {
    f.Some? && f.value != []
  }

  /** A record is kept when each active filter occurs in its field
      (case-sensitive): the title filter in `titulo`, the author filter in
      `autor`. */
  predicate Matches(b: Livro, titulo: Option<string>, autor: Option<string>)
  {
    (!Active(titulo) || IsSubstring(titulo.value, b.titulo)) &&
    (!Active(autor) || IsSubstring(autor.value, b.autor))
  }

  /** The records of `s` that match, in store order. */
  function Filter(s: seq<Livro>, titulo: Option<string>, autor: Option<string>): (r: seq<Livro>)
    ensures |r| <= |s|
    ensures forall i :: 0 <= i < |r| ==> r[i] in s && Matches(r[i], titulo, autor)
    ensures forall i :: 0 <= i < |s| && Matches(s[i], titulo, autor) ==> s[i] in r
  {
    if s == [] then []
    else
      var rest := Filter(s[1..], titulo, autor);
      assert forall i :: 1 <= i < |s| ==> s[i] == s[1..][i - 1];
      if Matches(s[0], titulo, autor) then [s[0]] + rest else rest
  }

  /** The search: the matching records, or not found when none match. */
  function Search(s: seq<Livro>, titulo: Option<string>, autor: Option<string>): (r: Outcome<seq<Livro>>)
    ensures r.Fail? <==> forall i :: 0 <= i < |s| ==> !Matches(s[i], titulo, autor)
    ensures r.Fail? ==> r.error == NotFound
    ensures r.Ok? ==> r.value != [] && r.value == Filter(s, titulo, autor)
  {
    var found := Filter(s, titulo, autor);
    assert found != [] ==> found[0] in s && Matches(found[0], titulo, autor);
    if found == [] then Fail(NotFound) else Ok(found)
  }

  /** Filtering keeps store order: filtering a concatenation concatenates
      the filtered parts. */
  lemma {:induction false} FilterAppend(a: seq<Livro>, b: seq<Livro>, titulo: Option<string>, autor: Option<string>)
    ensures Filter(a + b, titulo, autor) == Filter(a, titulo, autor) + Filter(b, titulo, autor)
  {
    if a == [] {
      assert a + b == b;
    } else {
      assert (a + b)[1..] == a[1..] + b;
      FilterAppend(a[1..], b, titulo, autor);
    }
  }

  /** Filtering keeps every matching record as often as the store holds it
      and drops every other. */
  lemma {:induction false} FilterCount(s: seq<Livro>, x: Livro, titulo: Option<string>, autor: Option<string>)
    ensures multiset(Filter(s, titulo, autor))[x] == if Matches(x, titulo, autor) then multiset(s)[x] else 0
  {
    if s != [] {
      FilterCount(s[1..], x, titulo, autor);
      assert s == [s[0]] + s[1..];
    }
  }

  /** With neither filter active every record matches, so the search returns
      the whole store, or not found when it is empty. */
  lemma {:induction false} InactiveFiltersKeepAll(s: seq<Livro>, titulo: Option<string>, autor: Option<string>)
    requires !Active(titulo) && !Active(autor)
    ensures Filter(s, titulo, autor) == s
    ensures Search(s, titulo, autor) == if s == [] then Fail(NotFound) else Ok(s)
  {
    if s != [] {
      InactiveFiltersKeepAll(s[1..], titulo, autor);
      assert s == [s[0]] + s[1..];
    }
  }

  /** A title-only search ignores the authors: it keeps exactly the records
      whose title contains the filter. */
  lemma TitleSearchIgnoresAuthor(s: seq<Livro>, titulo: string)
    ensures forall i :: 0 <= i < |s| ==>
      (Matches(s[i], Some(titulo), None) <==> exists k: nat :: OccursAt(titulo, s[i].titulo, k))
  {
    forall i | 0 <= i < |s| {
      IsSubstringIffOccurs(titulo, s[i].titulo);
    }
  }

  // ---- removal ----

  /** Position `i` holds the first record of `s` equal to `x`. */
  predicate FirstOccurrence(s: seq<Livro>, x: Livro, i: nat)
  {
    i < |s| && s[i] == x && forall j :: 0 <= j < i ==> s[j] != x
  }

  /** `list.remove(x)`: drops the first record equal to `x` and keeps the
      others in order. */
  function ListRemove(s: seq<Livro>, x: Livro): (r: seq<Livro>)
    requires x in s
    ensures |r| == |s| - 1
    ensures exists i: nat :: FirstOccurrence(s, x, i) && r == RemoveAt(s, i)
  {
    if s[0] == x then
      assert FirstOccurrence(s, x, 0) && s[1..] == RemoveAt(s, 0);
      s[1..]
    else
      var rest := ListRemove(s[1..], x);
      var i: nat :| FirstOccurrence(s[1..], x, i) && rest == RemoveAt(s[1..], i);
      assert FirstOccurrence(s, x, i + 1);
      assert [s[0]] + rest == RemoveAt(s, i + 1);
      [s[0]] + rest
  }

  /** Whichever position holds the first record equal to `x` is the one
      `list.remove(x)` drops. */
  lemma ListRemoveFirst(s: seq<Livro>, x: Livro, i: nat)
    requires FirstOccurrence(s, x, i)
    ensures ListRemove(s, x) == RemoveAt(s, i)
  {
    assert s[i] == x;
    var r := ListRemove(s, x);
    var k: nat :| FirstOccurrence(s, x, k) && r == RemoveAt(s, k);
    assert !(k < i) && !(i < k);
  }

  /** The record the delete handler hands to `list.remove` is the first with
      the id, and no earlier record can equal it, so `remove` drops exactly
      that position. */
  lemma RemoveDropsFirstMatch(s: seq<Livro>, id: int, i: nat)
    requires FirstIndex(s, id) == Some(i)
    ensures ListRemove(s, s[i]) == RemoveAt(s, i)
  {
    ListRemoveFirst(s, s[i], i);
  }

  /** The store without position `i`. */
  function RemoveAt(s: seq<Livro>, i: nat): (r: seq<Livro>)
    requires i < |s|
  {
    s[..i] + s[i + 1..]
  }

  /** Removing one position keeps the others in their relative order and
      takes exactly one copy of that record out of the store. */
  lemma RemoveAtShape(s: seq<Livro>, i: nat)
    requires i < |s|
    ensures |RemoveAt(s, i)| == |s| - 1
    ensures forall k :: 0 <= k < i ==> RemoveAt(s, i)[k] == s[k]
    ensures forall k :: i <= k < |s| - 1 ==> RemoveAt(s, i)[k] == s[k + 1]
    ensures multiset(RemoveAt(s, i)) + multiset{s[i]} == multiset(s)
  {
    assert s == s[..i] + [s[i]] + s[i + 1..];
  }

  // ---- identifiers across updates ----

  /** A record whose id is new keeps the ids unique when appended, and is
      then what a lookup of that id finds. */
  lemma AppendFresh(s: seq<Livro>, b: Livro)
    requires !HasId(s, b.id)
    ensures UniqueIds(s) ==> UniqueIds(s + [b])
    ensures FirstIndex(s + [b], b.id) == Some(|s|)
  {
    var t := s + [b];
    assert t[|s|].id == b.id;
    assert forall j :: 0 <= j < |s| ==> t[j] == s[j];
  }

  /** Replacing a record keeps the ids unique when the replacement keeps the
      replaced id or carries one the store does not hold. */
  lemma ReplaceKeepsUnique(s: seq<Livro>, i: nat, b: Livro)
    requires UniqueIds(s) && i < |s|
    requires b.id == s[i].id || !HasId(s, b.id)
    ensures UniqueIds(s[i := b])
  {
  }

  /** The replacement's id is not checked: a replacement carrying the id of
      another record leaves two records with one id. */
  lemma ReplaceCanDuplicateIds(s: seq<Livro>, i: nat, b: Livro)
    requires i < |s| && b.id != s[i].id && HasId(s, b.id)
    ensures !UniqueIds(s[i := b])
  {
    var j :| 0 <= j < |s| && s[j].id == b.id;
    assert s[i := b][i].id == s[i := b][j].id && i != j;
  }

  /** On a store with unique ids, a replacement keeps them unique exactly
      when it keeps the replaced id or carries one the store does not hold. */
  lemma ReplaceUniqueIff(s: seq<Livro>, i: nat, b: Livro)
    requires UniqueIds(s) && i < |s|
    ensures UniqueIds(s[i := b]) <==> b.id == s[i].id || !HasId(s, b.id)
  {
    if b.id == s[i].id || !HasId(s, b.id) {
      ReplaceKeepsUnique(s, i, b);
    } else {
      ReplaceCanDuplicateIds(s, i, b);
    }
  }

  /** Removing a record keeps the ids unique, and with unique ids removing
      the first match leaves no record with that id. */
  lemma RemoveKeepsUnique(s: seq<Livro>, id: int, i: nat)
    requires FirstIndex(s, id) == Some(i)
    ensures UniqueIds(s) ==> UniqueIds(RemoveAt(s, i))
    ensures UniqueIds(s) ==> !HasId(RemoveAt(s, i), id)
  {
    RemoveAtShape(s, i);
    if UniqueIds(s) {
      FirstIndexIsOnlyIndex(s, id, i);
    }
  }
}
