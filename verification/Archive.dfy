/** Reading named files out of a tar archive. */
module Archive {
  import opened GoText
  import opened Slices

  type byte = x: int | 0 <= x < 256
  type Bytes = seq<byte>

  /** A tar entry; `None` when its content cannot be read. */
  datatype Entry = Entry(name: string, content: Option<Bytes>)

  /** The entries up to the end, or up to a header that cannot be read. */
  datatype Tar = Tar(entries: seq<Entry>, damaged: bool)

  datatype ReadResult = Files(files: map<string, Bytes>) | NotFound(missing: seq<string>) | ReadError

  function Names(entries: seq<Entry>): set<string> { set i | 0 <= i < |entries| :: entries[i].name }

  ghost predicate DistinctNames(entries: seq<Entry>) {
    forall i, j :: 0 <= i < j < |entries| ==> entries[i].name != entries[j].name
  }

  /** The requested names that are in the archive. */
  ghost function Present(requested: seq<string>, entries: seq<Entry>): set<string> {
    set name | name in requested && name in Names(entries)
  }

  /**
   * `remainingFiles` is the first `m` slots of the array that `files` still ranges over: the requests minus one
   * copy of each found name. The slots beyond hold stale copies of names that are found or still remaining.
   */
  ghost predicate Searching(s: seq<string>, m: int, requested: seq<string>, found: set<string>) {
    && |s| == |requested| && 0 <= m <= |s| && m == |requested| - |found|
    && multiset(s[..m]) == multiset(requested) - multiset(found)
    && (forall j :: m <= j < |s| ==> IsStale(s, m, found, j))
    && (forall name :: name in found ==> name in requested)
  }

  ghost predicate IsStale(s: seq<string>, m: int, found: set<string>, j: int)
    requires 0 <= m <= j < |s|
  {
    s[j] in found || s[j] in s[..m]
  }

  lemma SearchStarts(requested: seq<string>)
    ensures Searching(requested, |requested|, requested, {})
  {
    assert requested[..|requested|] == requested;
    assert multiset(requested) - multiset({}) == multiset(requested);
  }

  /** Every slot holds a requested name, and a request not yet found is still in the prefix. */
  lemma SlotsAreRequests(s: seq<string>, m: int, requested: seq<string>, found: set<string>, name: string)
    requires Searching(s, m, requested, found)
    ensures name in s ==> name in requested
    ensures name !in found ==> (name in requested <==> name in s[..m])
  {
    forall j | m <= j < |s| && s[j] == name ensures name in requested {
      assert IsStale(s, m, found, j);
      assert name in s[..m] <==> name in multiset(s[..m]);
    }
    assert name in s[..m] <==> name in multiset(s[..m]);
    assert name in requested <==> name in multiset(requested);
  }

  /** The first match of a name not found before lies inside the shrunk slice. */
  lemma FirstMatchInBounds(s: seq<string>, m: int, requested: seq<string>, found: set<string>, i: nat)
    requires Searching(s, m, requested, found) && i < |s| && s[i] !in found
    requires forall j :: 0 <= j < i ==> s[j] != s[i]
    ensures i < m
  {
    assert i >= m ==> IsStale(s, m, found, i);
  }

  lemma PrefixAfterMatch(s: seq<string>, m: int, requested: seq<string>, found: set<string>, i: nat)
    requires Searching(s, m, requested, found) && i < m && s[i] !in found
    ensures multiset(s[i := s[m - 1]][..m - 1]) == multiset(requested) - multiset(found + {s[i]})
  {
    SwapRemove(s[..m], s[i := s[m - 1]][..m - 1], i);
    assert multiset(found + {s[i]}) == multiset(found) + multiset{s[i]};
  }

  lemma TailAfterMatch(s: seq<string>, m: int, requested: seq<string>, found: set<string>, i: nat, j: nat)
    requires Searching(s, m, requested, found) && i < m && m - 1 <= j < |s|
    ensures IsStale(s[i := s[m - 1]], m - 1, found + {s[i]}, j)
  {
    var s' := s[i := s[m - 1]];
    assert j >= m ==> IsStale(s, m, found, j);
    if s'[j] != s[i] && s'[j] !in found {
      var p :| 0 <= p < m && s[p] == s'[j];
      assert s'[if p == m - 1 then i else p] == s'[j];
      assert s'[..m - 1][if p == m - 1 then i else p] == s'[j];
    }
  }

  lemma SearchGoesOn(s: seq<string>, m: int, requested: seq<string>, found: set<string>, i: nat)
    requires Searching(s, m, requested, found) && i < m && s[i] !in found
    ensures Searching(s[i := s[m - 1]], m - 1, requested, found + {s[i]})
  {
    PrefixAfterMatch(s, m, requested, found, i);
    var s', m', found' := s[i := s[m - 1]], m - 1, found + {s[i]};
    forall j | m' <= j < |s'| ensures IsStale(s', m', found', j) {
      TailAfterMatch(s, m, requested, found, i, j);
    }
    SlotsAreRequests(s, m, requested, found, s[i]);
  }

  lemma SearchEnds(s: seq<string>, m: int, requested: seq<string>, entries: seq<Entry>)
    requires Searching(s, m, requested, Present(requested, entries))
    ensures m == 0 <==> Distinct(requested) && AllPresent(requested, entries)
  {
    var found := Present(requested, entries);
    DistinctCounts(requested);
    assert |multiset(s[..m])| == m;
    if m == 0 {
      assert multiset(requested) - multiset(found) == multiset{};
      assert multiset(requested) <= multiset(found);
      forall name | name in requested ensures name in found {
        assert name in multiset(requested);
      }
    } else {
      assert s[..m][0] in multiset(s[..m]);
    }
  }

  ghost predicate AllPresent(requested: seq<string>, entries: seq<Entry>) {
    forall name :: name in requested ==> name in Names(entries)
  }

  /** A requested entry, or a header, cannot be read. */
  ghost predicate Unreadable(tar: Tar, requested: seq<string>) {
    || tar.damaged
    || exists i :: 0 <= i < |tar.entries| && tar.entries[i].name in requested && tar.entries[i].content.None?
  }

  ghost predicate HasContents(files: map<string, Bytes>, requested: seq<string>, entries: seq<Entry>) {
    && files.Keys == Present(requested, entries)
    && forall i :: 0 <= i < |entries| && entries[i].name in requested ==>
         entries[i].content == Some(files[entries[i].name])
  }

  /**
   * Success exactly when all is readable and the requested names are distinct and all present: then each name
   * comes with its content, whatever the order of the archive. Otherwise the requests, repetitions included, minus
   * one copy of each name found.
   */
  ghost predicate ReadsAs(r: ReadResult, tar: Tar, requested: seq<string>) {
    match r
    case ReadError => Unreadable(tar, requested)
    case Files(files) =>
      && !Unreadable(tar, requested)
      && Distinct(requested) && AllPresent(requested, tar.entries)
      && HasContents(files, requested, tar.entries)
    case NotFound(missing) =>
      && !Unreadable(tar, requested)
      && !(Distinct(requested) && AllPresent(requested, tar.entries))
      && multiset(missing) == multiset(requested) - multiset(Present(requested, tar.entries))
  }

  /** What the outer loop has achieved before entry `k`. */
  ghost predicate Reached(s: seq<string>, m: int, result: map<string, Bytes>, requested: seq<string>,
                          entries: seq<Entry>, k: nat)
  {
    k <= |entries| && Searching(s, m, requested, result.Keys) && HasContents(result, requested, entries[..k])
  }

  lemma PresentNext(requested: seq<string>, entries: seq<Entry>, k: nat)
    requires k < |entries| && DistinctNames(entries)
    ensures entries[k].name !in Present(requested, entries[..k])
    ensures Present(requested, entries[..k + 1])
         == Present(requested, entries[..k]) + if entries[k].name in requested then {entries[k].name} else {}
  {
    var a, b := entries[..k], entries[..k + 1];
    assert forall i :: 0 <= i < k ==> a[i] == b[i] == entries[i];
    assert b[k] == entries[k];
    assert Names(b) == Names(a) + {entries[k].name};
  }

  lemma ContentsNext(result: map<string, Bytes>, requested: seq<string>, entries: seq<Entry>, k: nat)
    requires DistinctNames(entries) && k < |entries| && HasContents(result, requested, entries[..k])
    ensures entries[k].name !in requested ==> HasContents(result, requested, entries[..k + 1])
    ensures entries[k].name in requested && entries[k].content.Some? ==>
      HasContents(result[entries[k].name := entries[k].content.value], requested, entries[..k + 1])
  {
    var before, after := entries[..k], entries[..k + 1];
    PresentNext(requested, entries, k);
    assert after == before + [entries[k]];
    assert forall j :: 0 <= j < k ==> after[j] == before[j];
  }

  /** The first match of a new name is inside the shrunk slice, and taking it goes on as it should. */
  lemma EntryFound(s: seq<string>, m: int, result: map<string, Bytes>, requested: seq<string>,
                   entries: seq<Entry>, k: nat, i: nat)
    requires DistinctNames(entries) && k < |entries| && Reached(s, m, result, requested, entries, k)
    requires i < |s| && s[i] == entries[k].name && forall j :: 0 <= j < i ==> s[j] != s[i]
    ensures i < m && entries[k].name in requested
    ensures entries[k].content.Some? ==>
      Reached(s[i := s[m - 1]], m - 1, result[entries[k].name := entries[k].content.value], requested, entries, k + 1)
  {
    PresentNext(requested, entries, k);
    SlotsAreRequests(s, m, requested, result.Keys, s[i]);
    FirstMatchInBounds(s, m, requested, result.Keys, i);
    SearchGoesOn(s, m, requested, result.Keys, i);
    ContentsNext(result, requested, entries, k);
    if entries[k].content.Some? {
      assert result[s[i] := entries[k].content.value].Keys == result.Keys + {s[i]};
    }
  }

  lemma EntryIgnored(s: seq<string>, m: int, result: map<string, Bytes>, requested: seq<string>,
                     entries: seq<Entry>, k: nat)
    requires DistinctNames(entries) && k < |entries| && Reached(s, m, result, requested, entries, k)
    requires entries[k].name !in s
    ensures Reached(s, m, result, requested, entries, k + 1)
  {
    PresentNext(requested, entries, k);
    SlotsAreRequests(s, m, requested, result.Keys, entries[k].name);
    assert s[..m] <= s;
    ContentsNext(result, requested, entries, k);
  }

  /** The first slot that holds the name, or the number of slots. */
  function FirstMatch(s: seq<string>, name: string): (i: nat)
    ensures i <= |s| && (i < |s| ==> s[i] == name)
    ensures forall j :: 0 <= j < i ==> s[j] != name
  {
    if s == [] then 0 else
      var i := FirstMatch(s[..|s| - 1], name);
      if i < |s| - 1 || s[i] == name then i else |s|
  }

  /** What the inner loop does with entry `k`: never outside the shrunk slice, and the search goes on as it should. */
  lemma EntryTaken(s: seq<string>, m: int, result: map<string, Bytes>, requested: seq<string>,
                   entries: seq<Entry>, k: nat, i: nat)
    requires DistinctNames(entries) && k < |entries| && Reached(s, m, result, requested, entries, k)
    requires i == FirstMatch(s, entries[k].name)
    ensures i < |s| ==> i < m && entries[k].name in requested
    ensures i == |s| ==> Reached(s, m, result, requested, entries, k + 1)
    ensures i < |s| && entries[k].content.Some? ==>
      Reached(s[i := s[m - 1]], m - 1, result[entries[k].name := entries[k].content.value], requested, entries, k + 1)
  {
    if i < |s| {
      EntryFound(s, m, result, requested, entries, k, i);
    } else {
      EntryIgnored(s, m, result, requested, entries, k);
    }
  }

  lemma AllRead(s: seq<string>, m: int, result: map<string, Bytes>, requested: seq<string>, tar: Tar)
    requires !tar.damaged && Reached(s, m, result, requested, tar.entries, |tar.entries|)
    ensures ReadsAs(if |result| != |requested| then NotFound(s[..m]) else Files(result), tar, requested)
  {
    assert tar.entries[..|tar.entries|] == tar.entries;
    SearchEnds(s, m, requested, tar.entries);
    assert |result| == |result.Keys|;
  }

  /** The inner loop for one entry. Not `ok` when the content of a found entry cannot be read. */
  method TakeEntry(files: array<string>, remaining: nat, result: map<string, Bytes>, header: Entry)
    returns (ok: bool, remaining': nat, result': map<string, Bytes>)
    requires FirstMatch(files[..], header.name) < files.Length ==>
      FirstMatch(files[..], header.name) < remaining <= files.Length
    modifies files
    ensures var s, i := old(files[..]), FirstMatch(old(files[..]), header.name);
      if i == files.Length then ok && files[..] == s && remaining' == remaining && result' == result
      else if header.content.None? then !ok
      else
        && ok && files[..] == s[i := s[remaining - 1]] && remaining' == remaining - 1
        && result' == result[header.name := header.content.value]
  {
    var index := FindFirst(files, header.name);
    if index == files.Length {
      return true, remaining, result;
    }
    if header.content.None? {
      return false, remaining, result;
    }
    files[index] := files[remaining - 1];
    return true, remaining - 1, result[header.name := header.content.value];
  }

  /** Never indexes out of range, although the slice it shrinks aliases the one it searches. */
  method ReadFiles(tar: Tar, files: array<string>) returns (r: ReadResult)
    requires DistinctNames(tar.entries)
    modifies files
    ensures ReadsAs(r, tar, old(files[..]))
  {
    ghost var requested := files[..];
    var result: map<string, Bytes> := map[];
    var remaining := files.Length;
    SearchStarts(requested);
    for k := 0 to |tar.entries|
      invariant Reached(files[..], remaining, result, requested, tar.entries, k)
    {
      ghost var first := FirstMatch(files[..], tar.entries[k].name);
      EntryTaken(files[..], remaining, result, requested, tar.entries, k, first);
      var ok: bool;
      ok, remaining, result := TakeEntry(files, remaining, result, tar.entries[k]);
      if !ok {
        return ReadError;
      }
    }
    if tar.damaged {
      return ReadError;
    }
    AllRead(files[..], remaining, result, requested, tar);
    assert files[..][..remaining] == files[..remaining];
    if |result| != files.Length {
      return NotFound(files[..remaining]);
    }
    return Files(result);
  }

  /** The first slot of the whole array that holds the name. */
  method FindFirst(files: array<string>, name: string) returns (index: nat)
    ensures index == FirstMatch(files[..], name)
  {
    index := 0;
    while index < files.Length && files[index] != name
      invariant index <= files.Length && forall j :: 0 <= j < index ==> files[j] != name
    {
      index := index + 1;
    }
  }
}
