// Model of Data_Struct_Implementation/hashTable/hashTable_chain.c: a hash
// table of 20 buckets, each a singly linked chain of (key, data) items,
// with keys placed by `key % 20`. Each chain is modelled by the sequence of
// its items, head first; the global bucket array becomes the array field of
// a `Table` object.
module ChainedHash {

  const Size: nat := 20

  datatype DataItem = DataItem(data: int, key: int)

  datatype Option<T> = None | Some(value: T)

  /** `hashCode`. The source takes any `int`; a negative key would give a
      negative bucket index, so keys are required to be non-negative. */
  function HashCode(key: int): (h: nat)
    requires key >= 0
    ensures h < Size && (key - h) % Size == 0
  {
    key % Size
  }

  /** The first item of a chain with the given key. */
  function Find(c: seq<DataItem>, key: int): (r: Option<DataItem>)
    ensures r.Some? ==> r.value in c && r.value.key == key
    ensures r.None? <==> forall j :: 0 <= j < |c| ==> c[j].key != key
  {
    if c == [] then None
    else if c[0].key == key then Some(c[0])
    else Find(c[1..], key)
  }

  /** The chain with its first item of the given key unlinked. */
  function RemoveFirst(c: seq<DataItem>, key: int): (r: seq<DataItem>)
    ensures forall j :: 0 <= j < |r| ==> r[j] in c
    ensures Find(c, key).None? ==> r == c
    ensures Find(c, key).Some? ==> |r| == |c| - 1
  {
    if c == [] then []
    else if c[0].key == key then c[1..]
    else [c[0]] + RemoveFirst(c[1..], key)
  }

  /** No two items of a chain share a key. */
  ghost predicate UniqueKeys(c: seq<DataItem>)
  {
    forall i, j :: 0 <= i < j < |c| ==> c[i].key != c[j].key
  }

  /** A well-formed chain of bucket `b`: every key hashes to `b` and no key
      repeats. */
  ghost predicate ChainOk(c: seq<DataItem>, b: nat)
  {
    UniqueKeys(c) && forall j :: 0 <= j < |c| ==> c[j].key >= 0 && HashCode(c[j].key) == b
  }

  /** Appending an item makes it findable, and only for its own key when
      the chain lacked that key. */
  lemma {:induction false} FindAfterAppend(c: seq<DataItem>, item: DataItem, k: int)
    ensures Find(c + [item], k) == if Find(c, k).Some? then Find(c, k) else if item.key == k then Some(item) else None
  {
    if c == [] {
    } else {
      assert (c + [item])[1..] == c[1..] + [item];
      FindAfterAppend(c[1..], item, k);
    }
  }

  /** Removing a key from a chain without repeated keys makes it
      unfindable and leaves every other key's item as it was. */
  lemma {:induction false} FindAfterRemove(c: seq<DataItem>, key: int, k: int)
    requires UniqueKeys(c)
    ensures Find(RemoveFirst(c, key), k) == if k == key then None else Find(c, k)
  {
    if c == [] {
    } else if c[0].key == key {
      if k == key {
        assert forall j :: 0 <= j < |c[1..]| ==> c[1..][j].key != key by {
          forall j | 0 <= j < |c[1..]|
            ensures c[1..][j].key != key
          {
            assert c[1..][j] == c[j + 1];
          }
        }
      }
    } else {
      FindAfterRemove(c[1..], key, k);
    }
  }

  /** Appending an item with a fresh key of the right bucket keeps a chain
      well-formed, and so does unlinking an item. */
  lemma AppendKeepsChainOk(c: seq<DataItem>, b: nat, item: DataItem)
    requires ChainOk(c, b) && item.key >= 0 && HashCode(item.key) == b && Find(c, item.key).None?
    ensures ChainOk(c + [item], b)
  {
  }

  lemma {:induction false} RemoveKeepsChainOk(c: seq<DataItem>, b: nat, key: int)
    requires ChainOk(c, b)
    ensures ChainOk(RemoveFirst(c, key), b)
  {
    if c != [] {
      ChainTailOk(c, b);
      if c[0].key != key {
        RemoveKeepsChainOk(c[1..], b, key);
        var r := RemoveFirst(c[1..], key);
        forall j | 0 <= j < |r|
          ensures r[j].key != c[0].key
        {
          var m :| 0 <= m < |c[1..]| && c[1..][m] == r[j];
          assert c[m + 1] == r[j];
        }
        ConsUnique(c[0], r);
        assert RemoveFirst(c, key) == [c[0]] + r;
      }
    }
  }

  lemma {:induction false} ChainTailOk(c: seq<DataItem>, b: nat)
    requires c != [] && ChainOk(c, b)
    ensures ChainOk(c[1..], b)
  {
    forall i, j | 0 <= i < j < |c[1..]|
      ensures c[1..][i].key != c[1..][j].key
    {
      assert c[1..][i] == c[i + 1] && c[1..][j] == c[j + 1];
    }
  }

  lemma {:induction false} ConsUnique(x: DataItem, r: seq<DataItem>)
    requires UniqueKeys(r) && forall j :: 0 <= j < |r| ==> r[j].key != x.key
    ensures UniqueKeys([x] + r)
  {
    var c := [x] + r;
    forall i, j | 0 <= i < j < |c|
      ensures c[i].key != c[j].key
    {
      assert c[j] == r[j - 1];
      if i > 0 {
        assert c[i] == r[i - 1];
      }
    }
  }


  class Table {
    var hashArray: array<seq<DataItem>>

    ghost predicate Valid()
      reads this, hashArray
    {
      hashArray.Length == Size && forall b :: 0 <= b < Size ==> ChainOk(hashArray[b], b)
    }

    /** The item stored under `key`, as the table's abstract map. */
    ghost function Lookup(key: int): Option<DataItem>
      requires key >= 0 && Valid()
      reads this, hashArray
    {
      Find(hashArray[HashCode(key)], key)
    }

    /** The zero-initialised global array: every bucket empty. */
    constructor ()
      ensures Valid() && fresh(hashArray)
      ensures forall b :: 0 <= b < Size ==> hashArray[b] == []
      ensures forall k :: k >= 0 ==> Lookup(k) == None
    {
      hashArray := new seq<DataItem>[Size](_ => []);
    }

    /** `search`: walks the key's chain and returns its first item with
        that key, or NULL. The outer loop of the source runs its body at
        most once. */
    method Search(key: int) returns (r: Option<DataItem>)
      requires key >= 0 && Valid()
      ensures r == Lookup(key)
    {
      var hashIndex := HashCode(key);
      var chain := hashArray[hashIndex];
      var i := 0;
      while i < |chain|
        invariant 0 <= i <= |chain|
        invariant i > 0 ==> i == |chain| && Find(chain, key).None?
        decreases if i < |chain| then 1 else 0
      {
        i := 0;
        while i < |chain|
          invariant 0 <= i <= |chain|
          invariant forall j :: 0 <= j < i ==> chain[j].key != key
          invariant Find(chain, key) == Find(chain[i..], key)
        {
          if chain[i].key == key {
            return Some(chain[i]);
          }
          assert chain[i..][1..] == chain[i + 1..];
          i := i + 1;
        }
      }
      return None;
    }

    /** `insert`: a no-op when the key is already stored; otherwise a new
        item goes to the tail of the key's chain. */
    method Insert(key: int, data: int)
      requires key >= 0 && Valid()
      modifies hashArray
      ensures Valid()
      ensures hashArray[..] == if old(Lookup(key)).Some? then old(hashArray[..])
                               else old(hashArray[..])[HashCode(key) := old(hashArray[HashCode(key)]) + [DataItem(data, key)]]
      ensures Lookup(key) == if old(Lookup(key)).Some? then old(Lookup(key)) else Some(DataItem(data, key))
      ensures forall k :: k >= 0 && k != key ==> Lookup(k) == old(Lookup(k))
    {
      var found := Search(key);
      if found.Some? {
        return;
      }
      var item := DataItem(data, key);
      var hashIndex := HashCode(key);
      var chain := hashArray[hashIndex];
      if chain == [] {
        hashArray[hashIndex] := [item];
      } else {
        // The walk only reaches the last node: the cursor `i` is a
        // position of the chain, the nodes passed are `chain[..i + 1]`, and
        // nothing is written until it stops at `|chain| - 1`.
        var i := 0;
        while i + 1 < |chain|
          invariant 0 <= i < |chain|
          invariant hashArray[..] == old(hashArray[..])
        {
          i := i + 1;
        }
        assert chain[..i + 1] == chain;
        hashArray[hashIndex] := chain[..i + 1] + [item];
      }
      assert hashArray[hashIndex] == chain + [item];
      assert hashArray[..] == old(hashArray[..])[hashIndex := chain + [item]];
      AppendKeepsChainOk(chain, hashIndex, item);
      forall k | k >= 0
        ensures Lookup(k) == if k == key then Some(item) else old(Lookup(k))
      {
        if HashCode(k) == hashIndex {
          FindAfterAppend(chain, item, k);
        }
      }
    }

    /** `delete`: unlinks the first item with the key from its chain (the
        front, a middle node by copying its successor over it, or the
        tail); nothing changes when the key is absent. */
    method Delete(key: int)
      requires key >= 0 && Valid()
      modifies hashArray
      ensures Valid()
      ensures hashArray[..] == old(hashArray[..])[HashCode(key) := RemoveFirst(old(hashArray[HashCode(key)]), key)]
      ensures Lookup(key) == None
      ensures forall k :: k >= 0 && k != key ==> Lookup(k) == old(Lookup(k))
    {
      var hashIndex := HashCode(key);
      var c := hashArray[hashIndex];
      var result := DeleteFromChain(c, key);
      hashArray[hashIndex] := result;
      RemoveKeepsChainOk(c, hashIndex, key);
      forall k | k >= 0 && HashCode(k) == hashIndex
        ensures Find(result, k) == if k == key then None else Find(c, k)
      {
        FindAfterRemove(c, key, k);
      }
    }
  }

  /** The pointer walk of `delete` on one chain: the front case, then a
      cursor that unlinks its own node by copying the successor over it, or
      unlinks the successor when that is the key's tail node. */
  method DeleteFromChain(c: seq<DataItem>, key: int) returns (r: seq<DataItem>)
    ensures r == RemoveFirst(c, key)
  {
    if c != [] && c[0].key == key {
      return c[1..];
    }
    var i := 0;
    while i + 1 < |c|
      invariant 0 <= i <= |c| && (c != [] ==> i < |c|)
      invariant forall j :: 0 <= j < i ==> c[j].key != key
      invariant c != [] ==> c[0].key != key
      invariant i + 1 == |c| ==> c[i].key != key
    {
      if c[i].key == key {
        RemoveAt(c, key, i);
        return c[..i] + c[i + 1..];
      }
      if i + 2 == |c| && c[i + 1].key == key {
        RemoveAt(c, key, i + 1);
        return c[..i + 1];
      }
      i := i + 1;
    }
    NoKeyNoRemove(c, key);
    return c;
  }

  /** Unlinking the first item with a key is cutting it out at its index. */
  lemma {:induction false} RemoveAt(c: seq<DataItem>, key: int, i: nat)
    requires i < |c| && c[i].key == key && forall j :: 0 <= j < i ==> c[j].key != key
    ensures RemoveFirst(c, key) == c[..i] + c[i + 1..]
  {
    if i > 0 {
      FirstInTail(c, key, i);
      RemoveAt(c[1..], key, i - 1);
      assert c[0].key != key;
      SplitCons(c, i);
    }
  }

  lemma FirstInTail(c: seq<DataItem>, key: int, i: nat)
    requires 0 < i < |c| && c[i].key == key && forall j :: 0 <= j < i ==> c[j].key != key
    ensures c[1..][i - 1].key == key && forall j :: 0 <= j < i - 1 ==> c[1..][j].key != key
  {
    forall j | 0 <= j < i - 1
      ensures c[1..][j].key != key
    {
      assert c[1..][j] == c[j + 1];
    }
  }

  lemma SplitCons(c: seq<DataItem>, i: nat)
    requires 0 < i < |c|
    ensures [c[0]] + (c[1..][..i - 1] + c[1..][i..]) == c[..i] + c[i + 1..]
  {
    assert c[1..][..i - 1] == c[1..i];
    assert c[1..][i..] == c[i + 1..];
    assert c[..i] == [c[0]] + c[1..i];
  }


  lemma NoKeyNoRemove(c: seq<DataItem>, key: int)
    requires forall j :: 0 <= j < |c| ==> c[j].key != key
    ensures RemoveFirst(c, key) == c
  {
  }
}
