/** The sorted-commits object both generations build: a JavaScript object from
    a key to `{ description, commits }`. Its keys keep insertion order, so it is
    a sequence of buckets, and assigning a key either overwrites that key's
    bucket where it stands or appends a new one. */
module SortedCommits {

  datatype Bucket = Bucket(key: string, description: string, commits: seq<string>)

  predicate HasKey(m: seq<Bucket>, k: string) {
    exists i :: 0 <= i < |m| && m[i].key == k
  }

  /** An object never holds a key twice. */
  predicate UniqueKeys(m: seq<Bucket>) {
    forall i, j :: 0 <= i < j < |m| ==> m[i].key != m[j].key
  }

  /** The position of key `k`, if the object has it. */
  function KeyIndex(m: seq<Bucket>, k: string): (r: nat)
    requires HasKey(m, k)
    ensures r < |m| && m[r].key == k
    ensures forall j :: 0 <= j < r ==> m[j].key != k
  {
    if m[0].key == k then 0
    else
      assert HasKey(m[1..], k) by {
        var i :| 0 <= i < |m| && m[i].key == k;
        assert m[1..][i - 1].key == k;
      }
      1 + KeyIndex(m[1..], k)
  }

  /** `sortedCommits[b.key] = b`. */
  function Put(m: seq<Bucket>, b: Bucket): seq<Bucket> {
    if HasKey(m, b.key) then m[KeyIndex(m, b.key) := b] else m + [b]
  }

  /** Assigning a key keeps the keys unique, stores the bucket under its key,
      leaves every other key's bucket where it was and grows the object only
      when the key is new. */
  lemma PutProperties(m: seq<Bucket>, b: Bucket)
    requires UniqueKeys(m)
    ensures UniqueKeys(Put(m, b))
    ensures HasKey(m, b.key) ==> |Put(m, b)| == |m| && Put(m, b)[KeyIndex(m, b.key)] == b
    ensures !HasKey(m, b.key) ==> Put(m, b) == m + [b]
    ensures forall i :: 0 <= i < |m| && m[i].key != b.key ==> Put(m, b)[i] == m[i]
  {
  }
}
