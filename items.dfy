/**
 * The in-memory item table both reader revisions build: a record plus the
 * path buffer read after it, the comparator that orders the table
 * (comparePackItems) and the binary search getPackItemIndex runs over it
 * (the C library's bsearch, which calls the comparator with the key first).
 */
module PackItems {
  import opened PackFormat
  import opened MemCmp

  datatype PackItem = PackItem(info: ItemInfo, path: seq<uint8>)

  /** memcmp over pathSize bytes stays inside the path buffer. */
  predicate WellFormed(item: PackItem)
  {
    item.info.pathSize as nat <= |item.path|
  }

  /** The item a zero-filled PackItem holds (memset at the end of createPackReader). */
  const ZeroItem: PackItem := PackItem(ItemInfo(0, 0, 0, 0), [])

  /** comparePackItems: path length first, then memcmp over a's path length. */
  function CompareItems(a: PackItem, b: PackItem): (r: int)
    requires WellFormed(a) && WellFormed(b)
    ensures r == 0 <==> a.info.pathSize == b.info.pathSize && a.path[..a.info.pathSize] == b.path[..b.info.pathSize]
  {
    CompareSized(a.info.pathSize, a.path, b.info.pathSize, b.path)
  }

  /** sign(CompareItems(a, b)) == -sign(CompareItems(b, a)) */
  lemma CompareItemsAntisymmetric(a: PackItem, b: PackItem)
    requires WellFormed(a) && WellFormed(b)
    ensures CompareItems(a, b) < 0 <==> CompareItems(b, a) > 0
    ensures CompareItems(a, b) == 0 <==> CompareItems(b, a) == 0
  {
    CompareSizedAntisymmetric(a.info.pathSize, a.path, b.info.pathSize, b.path);
  }

  lemma CompareItemsTransitive(a: PackItem, b: PackItem, c: PackItem)
    requires WellFormed(a) && WellFormed(b) && WellFormed(c)
    requires CompareItems(a, b) <= 0 && CompareItems(b, c) <= 0
    ensures CompareItems(a, c) <= 0
  {
    CompareSizedTransitive(a.info.pathSize, a.path, b.info.pathSize, b.path, c.info.pathSize, c.path);
  }

  predicate AllWellFormed(items: seq<PackItem>)
  {
    forall i :: 0 <= i < |items| ==> WellFormed(items[i])
  }

  /** The order bsearch needs: no item compares greater than one after it. */
  predicate SortedItems(items: seq<PackItem>)
    requires AllWellFormed(items)
  {
    forall i, j :: 0 <= i < j < |items| ==> CompareItems(items[i], items[j]) <= 0
  }

  /** Some item compares equal to the key. */
  predicate Contains(items: seq<PackItem>, key: PackItem)
    requires AllWellFormed(items) && WellFormed(key)
  {
    exists k :: 0 <= k < |items| && CompareItems(key, items[k]) == 0
  }

  /**
   * bsearch(key, items, |items|, sizeof(PackItem), comparePackItems): the
   * index of an item comparing equal to the key, if the search meets one.
   * On a sorted table it meets one whenever one exists.
   */
  method BinarySearch(items: seq<PackItem>, key: PackItem) returns (found: bool, index: nat)
    requires AllWellFormed(items) && WellFormed(key)
    ensures found ==> index < |items| && CompareItems(key, items[index]) == 0
    ensures SortedItems(items) ==> (found <==> Contains(items, key))
  {
    var lo, hi := 0, |items|;
    while lo < hi
      invariant 0 <= lo <= hi <= |items|
      invariant SortedItems(items) ==>
        forall k :: 0 <= k < |items| && CompareItems(key, items[k]) == 0 ==> lo <= k < hi
    {
      var mid := (lo + hi) / 2;
      var cmp := CompareItems(key, items[mid]);
      if cmp < 0 {
        if SortedItems(items) {
          forall k | mid < k < |items| ensures CompareItems(key, items[k]) < 0 {
            CompareSizedStrictLeft(key.info.pathSize, key.path, items[mid].info.pathSize, items[mid].path,
                                   items[k].info.pathSize, items[k].path);
          }
        }
        hi := mid;
      } else if cmp > 0 {
        if SortedItems(items) {
          forall k | 0 <= k < mid ensures CompareItems(items[k], key) < 0 {
            CompareItemsAntisymmetric(key, items[mid]);
            CompareSizedStrictRight(items[k].info.pathSize, items[k].path, items[mid].info.pathSize, items[mid].path,
                                    key.info.pathSize, key.path);
            CompareItemsAntisymmetric(items[k], key);
          }
        }
        lo := mid + 1;
      } else {
        return true, mid;
      }
    }
    return false, 0;
  }
}
