/**
 * A Python `dict` from item name to quantity, as the sequence of its entries in
 * insertion order (the order `dict.items()` enumerates them in). Keys are unique.
 */
module OrderedDict {
  import opened Wrappers

  datatype Entry = Entry(name: string, qty: int)

  type Items = seq<Entry>

  /** No two entries share a name: the dictionary has one value per key. */
  predicate UniqueKeys(d: Items) {
    forall i, j :: 0 <= i < j < |d| ==> d[i].name != d[j].name
  }

  /** The position of key `k`, if present. */
  function Find(d: Items, k: string): (r: Option<nat>)
    ensures r.Some? ==> r.value < |d| && d[r.value].name == k
    ensures r.Some? ==> forall j :: 0 <= j < r.value ==> d[j].name != k
    ensures r.None? <==> forall j :: 0 <= j < |d| ==> d[j].name != k
  {
    if d == [] then None
    else if d[0].name == k then Some(0)
    else match Find(d[1..], k)
      case None => None
      case Some(i) => Some(i + 1)
  }

  /** `k in d` */
  predicate Has(d: Items, k: string) {
    Find(d, k).Some?
  }

  /** `d[k]` for a key that is present (the handlers test `k in d` first). */
  function Get(d: Items, k: string): int
    requires Has(d, k)
  {
    d[Find(d, k).value].qty
  }

  /** In a dictionary with unique keys, every entry is what a lookup of its name finds. */
  lemma {:induction false} FindEntry(d: Items, i: nat)
    requires UniqueKeys(d) && i < |d|
    ensures Find(d, d[i].name) == Some(i)
    ensures Has(d, d[i].name) && Get(d, d[i].name) == d[i].qty
  {
    if i > 0 {
      assert d[0].name != d[i].name;
      assert d[1..][i - 1] == d[i];
      FindEntry(d[1..], i - 1);
    }
  }

  /** Two dictionaries that give the same names to the positions of `d`, and no `k`
      beyond, find `k` at the same place. */
  lemma {:induction false} FindSameNames(d: Items, e: Items, k: string)
    requires |d| <= |e|
    requires forall i :: 0 <= i < |d| ==> e[i].name == d[i].name
    requires forall i :: |d| <= i < |e| ==> e[i].name != k
    ensures Find(e, k) == Find(d, k)
  {
    if d != [] && d[0].name != k {
      FindSameNames(d[1..], e[1..], k);
    }
  }

  /** `d[k] = v`: an existing key is overwritten in place, a new key is appended.
      Every old key keeps its position and, except `k`, its value. */
  function Put(d: Items, k: string, v: int): (r: Items)
    requires UniqueKeys(d)
    ensures UniqueKeys(r)
    ensures Has(r, k) && Get(r, k) == v
    ensures |r| == if Has(d, k) then |d| else |d| + 1
    ensures forall j :: 0 <= j < |d| ==> r[j].name == d[j].name
    ensures forall j :: 0 <= j < |d| && d[j].name != k ==> r[j] == d[j]
    ensures Has(d, k) ==> Find(r, k) == Find(d, k)
    ensures !Has(d, k) ==> r == d + [Entry(k, v)]
  {
    match Find(d, k)
    case Some(i) =>
      var r := d[i := Entry(k, v)];
      FindSameNames(d, r, k);
      r
    case None =>
      var r := d + [Entry(k, v)];
      FindEntry(r, |d|);
      r
  }

  /** Lookups of the other keys are not affected by `d[k] = v`. */
  lemma PutOther(d: Items, k: string, v: int, k': string)
    requires UniqueKeys(d) && k' != k
    ensures Find(Put(d, k, v), k') == Find(d, k')
    ensures Has(d, k') ==> Get(Put(d, k, v), k') == Get(d, k')
  {
    FindSameNames(d, Put(d, k, v), k');
  }

  /** The entries of `d` not named `k`, in their original order: the reference
      meaning of deleting `k`. */
  function Without(d: Items, k: string): (r: Items)
    ensures |r| <= |d|
  {
    if d == [] then []
    else (if d[0].name == k then [] else [d[0]]) + Without(d[1..], k)
  }

  lemma {:induction false} WithoutAbsent(d: Items, k: string)
    requires forall j :: 0 <= j < |d| ==> d[j].name != k
    ensures Without(d, k) == d
  {
    if d != [] {
      WithoutAbsent(d[1..], k);
    }
  }

  /** Cutting out position `i` is the same as filtering out its name, when that name
      occurs nowhere else. */
  lemma {:induction false} CutIsWithout(d: Items, i: nat)
    requires UniqueKeys(d) && i < |d|
    ensures d[..i] + d[i + 1..] == Without(d, d[i].name)
  {
    var k := d[i].name;
    var t := d[1..];
    assert Without(d, k) == (if d[0].name == k then [] else [d[0]]) + Without(t, k);
    if i == 0 {
      forall j | 0 <= j < |t| ensures t[j].name != k {
        assert t[j] == d[j + 1];
      }
      WithoutAbsent(t, k);
      assert d[..0] + d[1..] == t;
    } else {
      assert t[i - 1] == d[i];
      TailUnique(d);
      CutIsWithout(t, i - 1);
      assert d[0].name != k;
      assert d[..i] == [d[0]] + t[..i - 1];
      assert d[i + 1..] == t[i..];
    }
  }

  lemma TailUnique(d: Items)
    requires UniqueKeys(d) && d != []
    ensures UniqueKeys(d[1..])
  {
    var t := d[1..];
    forall p, q | 0 <= p < q < |t| ensures t[p].name != t[q].name {
      assert t[p] == d[p + 1] && t[q] == d[q + 1];
    }
  }

  /** Cutting out one position keeps the remaining keys unique. */
  lemma CutUnique(d: Items, i: nat)
    requires UniqueKeys(d) && i < |d|
    ensures UniqueKeys(d[..i] + d[i + 1..])
  {
    var r := d[..i] + d[i + 1..];
    forall p, q | 0 <= p < q < |r| ensures r[p].name != r[q].name {
      var p' := if p < i then p else p + 1;
      var q' := if q < i then q else q + 1;
      assert r[p] == d[p'] && r[q] == d[q'];
    }
  }

  /** `del d[k]` for a key that is present (the handler tests `k in d` first):
      exactly that entry goes, the others stay in their relative order. */
  function Delete(d: Items, k: string): (r: Items)
    requires UniqueKeys(d) && Has(d, k)
    ensures r == Without(d, k)
    ensures UniqueKeys(r) && !Has(r, k) && |r| == |d| - 1
    ensures forall j :: 0 <= j < |r| ==> r[j] == d[if j < Find(d, k).value then j else j + 1]
  {
    var i := Find(d, k).value;
    CutIsWithout(d, i);
    CutUnique(d, i);
    d[..i] + d[i + 1..]
  }

  /** Deleting `k` leaves every other key's presence and value as it was. */
  lemma DeleteOther(d: Items, k: string, k': string)
    requires UniqueKeys(d) && Has(d, k) && k' != k
    ensures Has(Delete(d, k), k') == Has(d, k')
    ensures Has(d, k') ==> Get(Delete(d, k), k') == Get(d, k')
  {
    var r := Delete(d, k);
    var i := Find(d, k).value;
    if Has(d, k') {
      var j := Find(d, k').value;
      var j' := if j < i then j else j - 1;
      assert r[j'] == d[j];
      FindEntry(d, j);
      FindEntry(r, j');
    }
    if Has(r, k') {
      var j' := Find(r, k').value;
      FindEntry(d, if j' < i then j' else j' + 1);
    }
  }
}
