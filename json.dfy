/** The parsed form of a notebook file: JSON values whose objects keep the
    insertion order of their entries, as a Python dict does. */
module Json {

  datatype Option<+T> = None | Some(value: T)

  /** A parsed JSON value. Numbers are integers only: the repair never
      looks inside a leaf value, so the kind of number does not matter. */
  datatype Json =
    | JNull
    | JBool(b: bool)
    | JInt(n: int)
    | JStr(s: string)
    | JArr(items: seq<Json>)
    | JObj(fields: seq<Member>)

  /** One entry of an object: its key and its value. */
  type Member = (string, Json)

  /** The keys of an object, in order. */
  function Keys(fields: seq<Member>): seq<string> {
    seq(|fields|, i requires 0 <= i < |fields| => fields[i].0)
  }

  /** Python's `k in d` on a dict. */
  function HasKey(fields: seq<Member>, k: string): (r: bool)
    ensures r <==> exists i :: 0 <= i < |fields| && fields[i].0 == k
  {
    if fields == [] then false
    else fields[0].0 == k || HasKey(fields[1..], k)
  }

  /** The keys of a dict are pairwise different. */
  predicate Distinct(fields: seq<Member>) {
    forall i, j :: 0 <= i < j < |fields| ==> fields[i].0 != fields[j].0
  }

  /** Where the entry for `k` sits: the first entry with that key, which in
      a dict is the only one. */
  function IndexOf(fields: seq<Member>, k: string): (j: nat)
    requires HasKey(fields, k)
    ensures j < |fields| && fields[j].0 == k
    ensures forall i :: 0 <= i < j ==> fields[i].0 != k
  {
    if fields[0].0 == k then 0 else 1 + IndexOf(fields[1..], k)
  }

  /** Python's `d[k]`. */
  function Get(fields: seq<Member>, k: string): Json
    requires HasKey(fields, k)
  {
    fields[IndexOf(fields, k)].1
  }

  /** The dict after the value stored under `k` was replaced where it
      stands: what an in-place change of `d[k]` looks like from `d`. */
  function Put(fields: seq<Member>, k: string, v: Json): seq<Member>
    requires HasKey(fields, k)
  {
    fields[IndexOf(fields, k) := (k, v)]
  }

  /** Python's `del d[k]`: the entry for `k` leaves, the others stay where
      they were relative to each other. */
  function Remove(fields: seq<Member>, k: string): seq<Member>
    requires HasKey(fields, k)
  {
    var j := IndexOf(fields, k);
    fields[..j] + fields[j + 1..]
  }

  /** Key membership and position depend on the keys alone. */
  lemma SameKeysSameIndex(f: seq<Member>, g: seq<Member>, k: string)
    requires Keys(f) == Keys(g)
    ensures HasKey(f, k) <==> HasKey(g, k)
    ensures HasKey(f, k) ==> IndexOf(f, k) == IndexOf(g, k)
  {
    assert |f| == |Keys(f)| == |Keys(g)| == |g|;
    assert forall i :: 0 <= i < |f| ==> f[i].0 == Keys(f)[i] == Keys(g)[i] == g[i].0;
  }

  /** Replacing a value keeps every key where it was and changes the value
      of that key only. */
  lemma PutFacts(f: seq<Member>, k: string, v: Json)
    requires HasKey(f, k)
    ensures Keys(Put(f, k, v)) == Keys(f)
    ensures HasKey(Put(f, k, v), k) && Get(Put(f, k, v), k) == v
    ensures forall k' :: k' != k && HasKey(f, k') ==>
      HasKey(Put(f, k, v), k') && Get(Put(f, k, v), k') == Get(f, k')
    ensures Distinct(f) ==> Distinct(Put(f, k, v))
  {
    var p := Put(f, k, v);
    assert Keys(p) == Keys(f);
    SameKeysSameIndex(p, f, k);
    forall k' | k' != k && HasKey(f, k')
      ensures HasKey(p, k') && Get(p, k') == Get(f, k')
    {
      SameKeysSameIndex(p, f, k');
    }
  }

  lemma PutPut(f: seq<Member>, k: string, v: Json, w: Json)
    requires HasKey(f, k)
    ensures HasKey(Put(f, k, v), k)
    ensures Put(Put(f, k, v), k, w) == Put(f, k, w)
  {
    PutFacts(f, k, v);
    SameKeysSameIndex(Put(f, k, v), f, k);
  }

  /** Replacing the values of two different keys can be done in either order. */
  lemma PutSwap(f: seq<Member>, k: string, v: Json, k': string, w: Json)
    requires k != k' && HasKey(f, k) && HasKey(f, k')
    ensures HasKey(Put(f, k, v), k') && HasKey(Put(f, k', w), k)
    ensures Put(Put(f, k, v), k', w) == Put(Put(f, k', w), k, v)
  {
    PutFacts(f, k, v);
    PutFacts(f, k', w);
    SameKeysSameIndex(Put(f, k, v), f, k');
    SameKeysSameIndex(Put(f, k', w), f, k);
  }

  lemma PutGet(f: seq<Member>, k: string)
    requires HasKey(f, k)
    ensures Put(f, k, Get(f, k)) == f
  {
  }

  /** `del d[k]` on a dict removes `k` and keeps every other entry, with its
      value, in the same relative order. */
  lemma RemoveFacts(f: seq<Member>, k: string)
    requires Distinct(f) && HasKey(f, k)
    ensures |Remove(f, k)| == |f| - 1
    ensures !HasKey(Remove(f, k), k)
    ensures Distinct(Remove(f, k))
    ensures forall k' :: k' != k ==> (HasKey(Remove(f, k), k') <==> HasKey(f, k'))
    ensures forall k' :: k' != k && HasKey(f, k') ==> Get(Remove(f, k), k') == Get(f, k')
  {
    var j := IndexOf(f, k);
    var r := Remove(f, k);
    assert forall i :: 0 <= i < j ==> r[i] == f[i];
    assert forall i :: j <= i < |r| ==> r[i] == f[i + 1];
    forall k' | k' != k && HasKey(f, k')
      ensures HasKey(r, k') && Get(r, k') == Get(f, k')
    {
      var m := IndexOf(f, k');
      if m < j {
        assert r[m] == f[m];
        assert IndexOf(r, k') == m;
      } else {
        assert r[m - 1] == f[m];
        assert IndexOf(r, k') == m - 1;
      }
    }
  }
}
