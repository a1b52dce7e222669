/** The directory listing handler's loop over raw directory entries. */
module ListDir {
  import opened Base
  import opened Wire
  import opened Sorting

  datatype Meta = Meta(isDir: bool, len: u64)

  /** One item of a directory stream: an error, or an entry whose name may not be UTF-8 and whose
      metadata may be unreadable. */
  datatype Item = Broken | Item(name: Option<string>, meta: Option<Meta>)

  function NameOf(e: DirEntry): string {
    e.name
  }

  /** What an item contributes to the listing. */
  function Shown(item: Item): Option<DirEntry> {
    match item
    case Item(Some(name), Some(meta)) =>
      if name != [] && name[0] == '.' then None
      else Some(DirEntry(name, meta.isDir, if meta.isDir then 0 else meta.len))
    case _ => None
  }

  function Collect(items: seq<Item>): seq<DirEntry> {
    if items == [] then []
    else
      Collect(items[..|items| - 1])
      + (match Shown(items[|items| - 1]) case None => [] case Some(e) => [e])
  }

  function Listing(items: seq<Item>): seq<DirEntry> {
    Sort(NameOf, Collect(items))
  }

  method ListEntries(items: seq<Item>) returns (entries: seq<DirEntry>)
    ensures entries == Listing(items)
  {
    entries := [];
    for i := 0 to |items|
      invariant entries == Collect(items[..i])
    {
      assert items[..i + 1][..i] == items[..i];
      if items[i].Broken? || items[i].meta.None? { continue; }
      if items[i].name.None? { continue; }
      var name, meta := items[i].name.value, items[i].meta.value;
      if name != [] && name[0] == '.' { continue; }
      entries := entries + [DirEntry(name, meta.isDir, if meta.isDir then 0 else meta.len)];
    }
    assert items[..|items|] == items;
    entries := Sort(NameOf, entries);
  }

  /** A directory has one entry of each name. */
  ghost predicate IsDirectory(items: seq<Item>) {
    forall i, j | 0 <= i < j < |items| && items[i].Item? && items[j].Item? && items[i].name.Some? ::
      items[i].name != items[j].name
  }

  lemma {:induction false} CollectMembers(items: seq<Item>, e: DirEntry)
    ensures e in Collect(items) <==> exists i :: 0 <= i < |items| && Shown(items[i]) == Some(e)
  {
    if items != [] {
      var n := |items| - 1;
      CollectMembers(items[..n], e);
      if i :| 0 <= i < |items| && Shown(items[i]) == Some(e) {
        if i < n {
          assert items[..n][i] == items[i];
        }
      }
    }
  }

  lemma {:induction false} CollectDistinct(items: seq<Item>)
    requires IsDirectory(items)
    ensures DistinctKeys(NameOf, Collect(items))
  {
    if items != [] {
      var n := |items| - 1;
      CollectDistinct(items[..n]);
      var before := Collect(items[..n]);
      forall i | 0 <= i < |before| && Shown(items[n]).Some?
        ensures before[i].name != Shown(items[n]).value.name
      {
        CollectMembers(items[..n], before[i]);
      }
    }
  }

  /** What an item shows: nothing that is hidden, unreadable or not named in UTF-8, and a directory
      without its size. */
  lemma ShownIff(item: Item, e: DirEntry)
    ensures Shown(item) == Some(e) <==>
            && item.Item? && item.name == Some(e.name) && (e.name == [] || e.name[0] != '.')
            && item.meta.Some? && e.isDir == item.meta.value.isDir
            && e.size == if e.isDir then 0 else item.meta.value.len
  {
  }

  /** How often an entry is collected is how many items show it. */
  lemma CollectCounts(items: seq<Item>, e: DirEntry)
    requires IsDirectory(items)
    ensures multiset(Collect(items))[e] == if exists i :: 0 <= i < |items| && Shown(items[i]) == Some(e) then 1 else 0
  {
    CollectMembers(items, e);
    CollectDistinct(items);
    CountOfDistinct(NameOf, Collect(items), e);
  }

  /** The listing is strictly sorted by name and holds exactly the entries whose names are UTF-8 and
      do not begin with a dot and whose metadata can be read, with size 0 for directories. */
  lemma ListingIsExact(items: seq<Item>)
    requires IsDirectory(items)
    ensures var es := Listing(items);
            && (forall i, j | 0 <= i < j < |es| :: Leq(es[i].name, es[j].name) && es[i].name != es[j].name)
            && (forall e :: e in es <==>
                  exists i ::
                    && 0 <= i < |items| && items[i].Item? && items[i].name == Some(e.name) && (e.name == [] || e.name[0] != '.')
                    && items[i].meta.Some? && e.isDir == items[i].meta.value.isDir
                    && e.size == if e.isDir then 0 else items[i].meta.value.len)
  {
    var es := Listing(items);
    SortSorts(NameOf, Collect(items));
    CollectDistinct(items);
    forall e ensures e in es <==> exists i :: 0 <= i < |items| && Shown(items[i]) == Some(e) {
      CollectMembers(items, e);
      assert e in multiset(es) <==> e in multiset(Collect(items));
    }
    forall e, i | 0 <= i < |items| {
      ShownIff(items[i], e);
    }
    PermutationKeepsDistinct(NameOf, Collect(items), es);
    forall i, j | 0 <= i < j < |es| ensures NameOf(es[i]) != NameOf(es[j]) && Leq(NameOf(es[i]), NameOf(es[j])) {}
  }

  /** The listing depends on the directory's entries and not on the order the system gives them. */
  lemma ListingIgnoresOrder(a: seq<Item>, b: seq<Item>)
    requires IsDirectory(a) && multiset(a) == multiset(b) && IsDirectory(b)
    ensures Listing(a) == Listing(b)
  {
    forall e ensures multiset(Collect(a))[e] == multiset(Collect(b))[e] {
      CollectCounts(a, e);
      CollectCounts(b, e);
      if i :| 0 <= i < |a| && Shown(a[i]) == Some(e) {
        assert a[i] in multiset(b);
      }
      if i :| 0 <= i < |b| && Shown(b[i]) == Some(e) {
        assert b[i] in multiset(a);
      }
    }
    SortSorts(NameOf, Collect(a));
    SortSorts(NameOf, Collect(b));
    CollectDistinct(a);
    PermutationKeepsDistinct(NameOf, Collect(a), Listing(a));
    SortedIsUnique(NameOf, Listing(a), Listing(b));
  }
}
