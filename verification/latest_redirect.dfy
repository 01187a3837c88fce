/** The home page's redirect to the newest transcript (pages/index.tsx).
    The transcriptions directory is listed, the `.json` names become
    candidate dates, the dates are sorted newest first and the first one is
    the destination; anything else leads to `/404`. Parsing a name as a date
    is outside the model: `key` stands for `new Date(name).getTime()` and is
    taken to be defined for every candidate. */
module LatestRedirect {
  import opened Wrappers
  import opened Text

  const JsonSuffix: string := ".json"
  const NotFound: string := "/404"

  /** The directory: missing, present but failing to list (which throws
      inside the `try`), or listed. */
  datatype Listing = Missing | Unreadable | Files(names: seq<string>)

  datatype Redirect = Redirect(destination: string, permanent: bool)

  predicate OccursAt(s: string, pat: string, i: nat) {
    i + |pat| <= |s| && s[i..i + |pat|] == pat
  }

  lemma OccursShift(s: string, pat: string, i: nat)
    requires 1 <= i && s != []
    ensures OccursAt(s, pat, i) <==> OccursAt(s[1..], pat, i - 1)
  {
    if i + |pat| <= |s| {
      var a := s[i..i + |pat|];
      var b := s[1..][i - 1..i - 1 + |pat|];
      assert |a| == |b|;
      forall k | 0 <= k < |a| ensures a[k] == b[k] {
        assert a[k] == s[i + k];
        assert b[k] == s[1..][i - 1 + k];
      }
      assert a == b;
    }
  }

  /** The position of the first occurrence of `pat` in `s`. */
  function FindFirst(s: string, pat: string): (r: Option<nat>)
    ensures r.Some? ==> OccursAt(s, pat, r.value)
    ensures forall i: nat :: (r.None? || i < r.value) ==> !OccursAt(s, pat, i)
    decreases |s|
  {
    if |s| < |pat| then None
    else if s[..|pat|] == pat then Some(0)
    else
      var rest := FindFirst(s[1..], pat);
      assert forall i: nat :: 1 <= i ==> (OccursAt(s, pat, i) <==> OccursAt(s[1..], pat, i - 1)) by {
        forall i: nat | 1 <= i ensures OccursAt(s, pat, i) <==> OccursAt(s[1..], pat, i - 1) {
          OccursShift(s, pat, i);
        }
      }
      match rest {
        case None => None
        case Some(i) => Some(i + 1)
      }
  }

  /** `String.prototype.replace` with a string pattern: only the first
      occurrence is removed. */
  function RemoveFirst(s: string, pat: string): (r: string)
    ensures FindFirst(s, pat).None? ==> r == s
    ensures FindFirst(s, pat).Some? ==>
      var i := FindFirst(s, pat).value;
      |r| + |pat| == |s| && r == s[..i] + s[i + |pat|..]
  {
    match FindFirst(s, pat)
    case None => s
    case Some(i) => s[..i] + s[i + |pat|..]
  }

  /** The `.json` names, each with its first `.json` removed, in listing order. */
  function Candidates(names: seq<string>): (ds: seq<string>)
    ensures |ds| <= |names|
  {
    if names == [] then []
    else
      var here := if EndsWith(names[0], JsonSuffix) then [RemoveFirst(names[0], JsonSuffix)] else [];
      here + Candidates(names[1..])
  }

  lemma {:induction false} CandidatesIff(names: seq<string>, d: string)
    ensures d in Candidates(names) <==>
      exists i :: 0 <= i < |names| && EndsWith(names[i], JsonSuffix) && RemoveFirst(names[i], JsonSuffix) == d
  {
    if names != [] {
      CandidatesIff(names[1..], d);
      assert forall i :: 1 <= i < |names| ==> names[1..][i - 1] == names[i];
      if exists i :: 0 <= i < |names| && EndsWith(names[i], JsonSuffix) && RemoveFirst(names[i], JsonSuffix) == d {
        var i :| 0 <= i < |names| && EndsWith(names[i], JsonSuffix) && RemoveFirst(names[i], JsonSuffix) == d;
        if i > 0 {
          assert names[1..][i - 1] == names[i];
        }
      }
    }
  }

  /** A name `d.json` whose stem holds no `.` yields `d`. */
  lemma StemOfPlainName(d: string)
    requires '.' !in d
    ensures RemoveFirst(d + JsonSuffix, JsonSuffix) == d
  {
    var s := d + JsonSuffix;
    assert OccursAt(s, JsonSuffix, |d|) by {
      assert s[|d|..|d| + |JsonSuffix|] == JsonSuffix;
    }
    var i := FindFirst(s, JsonSuffix);
    assert i.Some? && i.value <= |d|;
    forall k | 0 <= k < |d| ensures !OccursAt(s, JsonSuffix, k) {
      assert s[k] == d[k];
      assert k + |JsonSuffix| <= |s| ==> s[k..k + |JsonSuffix|][0] == d[k];
    }
    assert s[..|d|] == d;
  }

  // ---------------------------------------------------------------------------
  // Newest first

  /** Insertion into a list sorted newest first, ahead of every entry that is
      not newer, as the stable sort with the comparator `key(b) - key(a)`
      places it. */
  function Insert(d: string, sorted: seq<string>, key: string -> int): (r: seq<string>)
    ensures multiset(r) == multiset{d} + multiset(sorted)
    ensures r != [] && (r[0] == d || (sorted != [] && r[0] == sorted[0]))
  {
    if sorted == [] || key(sorted[0]) <= key(d) then [d] + sorted
    else
      var r := [sorted[0]] + Insert(d, sorted[1..], key);
      assert sorted == [sorted[0]] + sorted[1..];
      r
  }

  /** The sort of `dates`, newest first, stable among equal keys. */
  function SortNewestFirst(ds: seq<string>, key: string -> int): (r: seq<string>)
    ensures multiset(r) == multiset(ds)
  {
    if ds == [] then []
    else
      var r := Insert(ds[0], SortNewestFirst(ds[1..], key), key);
      assert ds == [ds[0]] + ds[1..];
      r
  }

  predicate NewestFirst(s: seq<string>, key: string -> int) {
    forall i, j :: 0 <= i < j < |s| ==> key(s[j]) <= key(s[i])
  }

  /** Inserting under a bound on the keys stays under it. */
  lemma {:induction false} InsertBounded(d: string, sorted: seq<string>, key: string -> int, m: int)
    requires key(d) <= m && forall i :: 0 <= i < |sorted| ==> key(sorted[i]) <= m
    ensures forall i :: 0 <= i < |Insert(d, sorted, key)| ==> key(Insert(d, sorted, key)[i]) <= m
  {
    if sorted != [] && key(sorted[0]) > key(d) {
      InsertBounded(d, sorted[1..], key, m);
      var tail := Insert(d, sorted[1..], key);
      var r := [sorted[0]] + tail;
      forall i | 0 <= i < |r| ensures key(r[i]) <= m {
        if i > 0 {
          assert r[i] == tail[i - 1];
        } else {
          assert r[i] == sorted[0];
        }
      }
    }
  }

  lemma {:induction false} InsertKeepsOrder(d: string, sorted: seq<string>, key: string -> int)
    requires NewestFirst(sorted, key)
    ensures NewestFirst(Insert(d, sorted, key), key)
  {
    if sorted != [] && key(sorted[0]) > key(d) {
      var tail := Insert(d, sorted[1..], key);
      var r := [sorted[0]] + tail;
      InsertKeepsOrder(d, sorted[1..], key);
      InsertBounded(d, sorted[1..], key, key(sorted[0]));
      forall i, j | 0 <= i < j < |r| ensures key(r[j]) <= key(r[i]) {
        assert r[j] == tail[j - 1];
        if i > 0 {
          assert r[i] == tail[i - 1];
        } else {
          assert r[i] == sorted[0];
        }
      }
    }
  }

  lemma {:induction false} SortIsNewestFirst(ds: seq<string>, key: string -> int)
    ensures NewestFirst(SortNewestFirst(ds, key), key)
  {
    if ds != [] {
      SortIsNewestFirst(ds[1..], key);
      InsertKeepsOrder(ds[0], SortNewestFirst(ds[1..], key), key);
    }
  }

  /** The position of the first date with the greatest key. */
  function NewestIndex(ds: seq<string>, key: string -> int): (k: nat)
    requires ds != []
    ensures k < |ds|
    ensures forall j :: 0 <= j < |ds| ==> key(ds[j]) <= key(ds[k])
    ensures forall j :: 0 <= j < k ==> key(ds[j]) < key(ds[k])
  {
    if |ds| == 1 then 0
    else
      var k := 1 + NewestIndex(ds[1..], key);
      assert forall j :: 1 <= j < |ds| ==> ds[j] == ds[1..][j - 1];
      if key(ds[k]) <= key(ds[0]) then 0 else k
  }

  /** After the sort, `dates[0]` is the first of the newest dates. */
  lemma {:induction false} SortHeadIsNewest(ds: seq<string>, key: string -> int)
    requires ds != []
    ensures SortNewestFirst(ds, key)[0] == ds[NewestIndex(ds, key)]
  {
    if |ds| > 1 {
      SortHeadIsNewest(ds[1..], key);
      assert ds[1..] != [];
    }
  }

  // ---------------------------------------------------------------------------
  // The redirect

  /** `getServerSideProps`: to the newest candidate when there is one, and
      to `/404` when the directory is missing, cannot be listed or has no
      `.json` entry. The redirect is never permanent. */
  function LatestRedirect(listing: Listing, key: string -> int): (r: Redirect)
    ensures !r.permanent
    ensures !listing.Files? || Candidates(listing.names) == [] ==> r.destination == NotFound
    ensures listing.Files? && Candidates(listing.names) != [] ==>
      var ds := Candidates(listing.names);
      var d := ds[NewestIndex(ds, key)];
      && r.destination == "/" + d
      && (forall e :: e in ds ==> key(e) <= key(d))
  {
    match listing
    case Missing => Redirect(NotFound, false)
    case Unreadable => Redirect(NotFound, false)
    case Files(names) =>
      var dates := SortNewestFirst(Candidates(names), key);
      if |dates| > 0 then
        var ds := Candidates(names);
        assert ds != [] by {
          assert multiset(dates) == multiset(ds);
          assert dates[0] in multiset(dates);
        }
        SortHeadIsNewest(ds, key);
        Redirect("/" + dates[0], false)
      else
        assert Candidates(names) == [] by {
          assert multiset(dates) == multiset(Candidates(names));
        }
        Redirect(NotFound, false)
  }
}
