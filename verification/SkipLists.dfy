/** The memtable's skip list: towers of forward pointers rewritten in place. */
module SkipLists {
  import opened GoStrings

  const MAX_LEVEL := 16

  // ---------- towers: which node is next at a level ----------

  /** The next position after `p` whose tower is taller than `i`, or the end. */
  ghost function NextTower(h: seq<nat>, p: nat, i: nat): (q: nat)
    requires p < |h|
    ensures p < q <= |h|
    ensures q < |h| ==> h[q] > i
    ensures forall r :: p < r < q ==> h[r] <= i
    decreases |h| - p
  {
    if p + 1 == |h| || h[p + 1] > i then p + 1 else NextTower(h, p + 1, i)
  }

  /** The positions met by following the level-`i` pointers from position `p`. */
  ghost function LevelFrom(h: seq<nat>, p: nat, i: nat): (s: seq<nat>)
    requires p < |h|
    decreases |h| - p
  {
    var q := NextTower(h, p, i);
    if q == |h| then [] else [q] + LevelFrom(h, q, i)
  }

  /** Level `i` meets exactly the towers taller than `i`, in order; so each level is a
      subsequence of the level below, and level 0 meets every node. */
  lemma {:induction false} LevelIsOrderedSubsequence(h: seq<nat>, p: nat, i: nat)
    requires p < |h|
    ensures forall q :: q in LevelFrom(h, p, i) <==> p < q < |h| && h[q] > i
    ensures forall a, b :: 0 <= a < b < |LevelFrom(h, p, i)| ==>
                             LevelFrom(h, p, i)[a] < LevelFrom(h, p, i)[b]
    ensures forall q :: q in LevelFrom(h, p, i + 1) ==> q in LevelFrom(h, p, i)
    decreases |h| - p, 1
  {
    LevelMembers(h, p, i);
    LevelMembers(h, p, i + 1);
  }

  lemma {:induction false} LevelMembers(h: seq<nat>, p: nat, i: nat)
    requires p < |h|
    ensures forall q :: q in LevelFrom(h, p, i) <==> p < q < |h| && h[q] > i
    ensures forall a, b :: 0 <= a < b < |LevelFrom(h, p, i)| ==>
                             LevelFrom(h, p, i)[a] < LevelFrom(h, p, i)[b]
    decreases |h| - p, 0
  {
    var q := NextTower(h, p, i);
    if q < |h| {
      LevelMembers(h, q, i);
      var rest := LevelFrom(h, q, i);
      assert forall a :: 0 <= a < |rest| ==> rest[a] in rest;
      assert LevelFrom(h, p, i) == [q] + rest;
    }
  }

  lemma {:induction false} NextTowerUnique(h: seq<nat>, p: nat, i: nat, q: nat)
    requires p < q <= |h|
    requires q < |h| ==> h[q] > i
    requires forall r :: p < r < q ==> h[r] <= i
    ensures q == NextTower(h, p, i)
  {
    var n := NextTower(h, p, i);
    if n < q { } else if q < n { }
  }

  ghost function WithTower(h: seq<nat>, k: nat, t: nat): (r: seq<nat>)
    requires k <= |h|
  {
    h[..k] + [t] + h[k..]
  }

  /** How inserting a tower of height `t` at position `k` moves the level-`i` successor of
      every position. */
  lemma {:induction false} NextTowerInsert(h: seq<nat>, k: nat, t: nat, p: nat, i: nat)
    requires 1 <= k <= |h| && p <= |h|
    ensures p < k ==> NextTower(WithTower(h, k, t), p, i) ==
                        if NextTower(h, p, i) < k then NextTower(h, p, i)
                        else if t > i then k else NextTower(h, p, i) + 1
    ensures p >= k ==> NextTower(WithTower(h, k, t), p, i) == NextTower(h, p - 1, i) + 1
  {
    var h' := WithTower(h, k, t);
    if p < k {
      var n := NextTower(h, p, i);
      NextTowerUnique(h', p, i, if n < k then n else if t > i then k else n + 1);
    } else {
      var n := NextTower(h, p - 1, i);
      forall r | p < r < n + 1 ensures h'[r] <= i { assert h'[r] == h[r - 1]; }
      NextTowerUnique(h', p, i, n + 1);
    }
  }

  // ---------- nodes and lists ----------

  class Node<V> {
    const key: Str
    var value: Option<V>
    const forward: array<Node?<V>>

    constructor (key: Str, value: Option<V>, height: nat)
      ensures this.key == key && this.value == value
      ensures fresh(forward) && forward.Length == height
      ensures forall i :: 0 <= i < height ==> forward[i] == null
    {
      this.key, this.value := key, value;
      forward := new Node?<V>[height](_ => null);
    }
  }

  ghost function Heights<V>(chain: seq<Node<V>>): (h: seq<nat>)
    ensures |h| == |chain|
    ensures forall i :: 0 <= i < |chain| ==> h[i] == chain[i].forward.Length
  {
    seq(|chain|, i requires 0 <= i < |chain| => chain[i].forward.Length)
  }

  ghost function NodeAt<V>(chain: seq<Node<V>>, p: nat): (n: Node?<V>) {
    if p < |chain| then chain[p] else null
  }

  ghost function Arrays<V>(chain: seq<Node<V>>): (s: set<array<Node?<V>>>) {
    set i | 0 <= i < |chain| :: chain[i].forward
  }

  ghost predicate Owned<V>(chain: seq<Node<V>>, repr: set<object>) {
    forall p :: 0 <= p < |chain| ==> chain[p] in repr && chain[p].forward in repr
  }

  /** Distinct nodes with distinct pointer arrays. */
  ghost predicate Separate<V>(chain: seq<Node<V>>) {
    forall i, j :: 0 <= i < j < |chain| ==>
                     chain[i] != chain[j] && chain[i].forward != chain[j].forward
  }

  /** Every pointer leads to the next tower of its level. */
  ghost predicate Linked<V>(chain: seq<Node<V>>)
    reads Arrays(chain)
  {
    forall p, i {:trigger chain[p].forward[i]} ::
      0 <= p < |chain| && 0 <= i < chain[p].forward.Length ==>
        chain[p].forward[i] == NodeAt(chain, NextTower(Heights(chain), p, i))
  }

  ghost predicate KeysSorted<V>(chain: seq<Node<V>>) {
    forall i, j :: 1 <= i < j < |chain| ==> Less(chain[i].key, chain[j].key)
  }

  /** Position `p` is the last tower taller than `i` whose key is below `key`. */
  ghost predicate LastBelow<V>(chain: seq<Node<V>>, key: Str, i: nat, p: nat) {
    && p < |chain| && chain[p].forward.Length > i
    && (p > 0 ==> Less(chain[p].key, key))
    && var q := NextTower(Heights(chain), p, i);
       q < |chain| ==> !Less(chain[q].key, key)
  }

  /** The level-`i` predecessor of a key lies before the level-0 insertion point, and no
      tower taller than `i` stands between the two. */
  lemma LastBelowBrackets<V>(chain: seq<Node<V>>, key: Str, i: nat, p: nat, k: nat)
    requires KeysSorted(chain)
    requires LastBelow(chain, key, i, p)
    requires 1 <= k <= |chain|
    requires LastBelow(chain, key, 0, k - 1)
    requires forall r :: 0 <= r < |chain| ==> chain[r].forward.Length >= 1
    ensures p < k <= NextTower(Heights(chain), p, i)
  {
    var q := NextTower(Heights(chain), p, i);
    assert NextTower(Heights(chain), k - 1, 0) == k;
    if k <= p {
      if k < p { NotLessThenLess(key, chain[k].key, chain[p].key); }
      LessAsymmetric(chain[p].key, key);
    }
    if q < k && q < k - 1 { LessTransitive(chain[q].key, chain[k - 1].key, key); }
  }

  /** Keys before the insertion point are below `key`, keys after it above. */
  lemma KeyAround<V>(chain: seq<Node<V>>, key: Str, k: nat, p: nat)
    requires KeysSorted(chain)
    requires 1 <= k <= |chain| && 1 <= p < |chain|
    requires k > 1 ==> Less(chain[k - 1].key, key)
    requires k < |chain| ==> !Less(chain[k].key, key)
    ensures p < k ==> Less(chain[p].key, key)
    ensures p > k || (p == k && chain[k].key != key) ==> Less(key, chain[p].key)
    ensures p != k ==> chain[p].key != key
  {
    if p < k {
      if p < k - 1 { LessTransitive(chain[p].key, chain[k - 1].key, key); }
      LessAsymmetric(chain[p].key, key);
    } else if p == k {
      LessTotal(key, chain[k].key);
    } else {
      NotLessThenLess(key, chain[k].key, chain[p].key);
      LessAsymmetric(key, chain[p].key);
    }
  }

  /** The shape of the towers under a list's head and level. */
  ghost predicate Shape<V>(head: Node<V>, level: int, chain: seq<Node<V>>)
    reads Arrays(chain)
  {
    && |chain| >= 1 && chain[0] == head
    && head.forward.Length == MAX_LEVEL
    && 0 <= level < MAX_LEVEL
    && (forall p :: 1 <= p < |chain| ==> 1 <= chain[p].forward.Length <= level + 1)
    && Linked(chain)
  }

  ghost function KeySet<V>(chain: seq<Node<V>>): (s: set<Str>) {
    set p | 1 <= p < |chain| :: chain[p].key
  }

  ghost function KeysOf<V>(chain: seq<Node<V>>): (keys: seq<Str>)
    requires |chain| >= 1
    ensures |keys| == |chain| - 1
    ensures forall i :: 0 <= i < |keys| ==> keys[i] == chain[i + 1].key
  {
    seq(|chain| - 1, i requires 0 <= i < |chain| - 1 => chain[i + 1].key)
  }

  lemma KeysAlongLevelZero<V>(chain: seq<Node<V>>)
    requires |chain| >= 1 && KeysSorted(chain)
    ensures StrictlySorted(KeysOf(chain))
    ensures forall k :: k in KeysOf(chain) <==> k in KeySet(chain)
  {
    var keys := KeysOf(chain);
    forall p | 1 <= p < |chain| ensures keys[p - 1] == chain[p].key { }
    forall k | k in KeySet(chain) ensures k in keys {
      var p :| 1 <= p < |chain| && chain[p].key == k;
      assert keys[p - 1] == k;
    }
  }

  /** The nodes after the head hold the map's bindings and nothing else. */
  ghost predicate Holds<V>(chain: seq<Node<V>>, contents: map<Str, V>)
    reads chain
  {
    && |chain| >= 1 && chain[0].key == [] && chain[0].value.None?
    && contents.Keys == KeySet(chain)
    && forall p :: 1 <= p < |chain| ==> chain[p].value == Some(contents[chain[p].key])
  }

  class SkipList<V> {
    const head: Node<V>
    var level: int
    var size: int

    ghost var chain: seq<Node<V>>      // head, then every node in key order
    ghost var contents: map<Str, V>    // the map the list stands for
    ghost var Repr: set<object>        // the list, its nodes and their arrays

    ghost predicate Valid()
      reads this, Repr
    {
      && this in Repr
      && Owned(chain, Repr)
      && Shape(head, level, chain)
      && Separate(chain)
      && KeysSorted(chain)
      && Holds(chain, contents)
      && size == |chain| - 1 == |contents|
      && (level > 0 ==> head.forward[level] != null)
    }

    /** The keys along level 0. */
    ghost function SortedKeys(): (keys: seq<Str>)
      requires Valid()
      reads this, Repr
      ensures StrictlySorted(keys) && |keys| == size == |contents|
      ensures forall k :: k in keys <==> k in contents
      ensures forall i :: 0 <= i < |keys| ==> keys[i] == chain[i + 1].key
    {
      KeysAlongLevelZero(chain);
      KeysOf(chain)
    }

    constructor ()
      ensures Valid() && fresh(Repr)
      ensures contents == map[]
    {
      head := new Node([], None, MAX_LEVEL);
      level, size := 0, 0;
      new;
      chain, contents, Repr := [head], map[], {this, head, head.forward};
    }

    /** randomLevel: any number of successful coin tosses, at most 15. */
    method RandomLevel() returns (l: int)
      ensures 0 <= l < 16
    {
      l := 0;
      while l < MAX_LEVEL - 1
        invariant 0 <= l < MAX_LEVEL
      {
        if * { break; }
        l := l + 1;
      }
    }

    /** The descent of Search: move right while the next key is below `key`, then down. */
    method Descend(key: Str) returns (current: Node<V>, ghost p: nat)
      requires Shape(head, level, chain)
      ensures LastBelow(chain, key, 0, p) && current == chain[p]
    {
      current, p := head, 0;
      var i := level;
      while i >= 0
        invariant -1 <= i <= level
        invariant p < |chain| && current == chain[p]
        invariant i >= 0 ==> current.forward.Length > i
        invariant p > 0 ==> Less(current.key, key)
        invariant i < level ==> LastBelow(chain, key, i + 1, p)
      {
        while current.forward[i] != null && Less(current.forward[i].key, key)
          invariant p < |chain| && current == chain[p] && current.forward.Length > i
          invariant p > 0 ==> Less(current.key, key)
          decreases |chain| - p
        {
          p := NextTower(Heights(chain), p, i);
          current := current.forward[i];
        }
        i := i - 1;
      }
    }

    /** Search: the binding of `key`, if there is one. */
    method Search(key: Str) returns (r: Option<V>)
      requires Valid()
      ensures r == if key in contents then Some(contents[key]) else None
    {
      var current, p := Descend(key);
      FoundOrAbsent(key, p + 1);
      var next := current.forward[0];
      if next != null && next.key == key {
        return next.value;
      }
      return None;
    }

    /** The node after the last key below `key` is the only one that can hold `key`. */
    lemma FoundOrAbsent(key: Str, k: nat)
      requires Valid()
      requires 1 <= k <= |chain| && LastBelow(chain, key, 0, k - 1)
      ensures chain[k - 1].forward[0] == NodeAt(chain, k)
      ensures key in contents <==> k < |chain| && chain[k].key == key
      ensures key in contents ==> chain[k].value == Some(contents[key])
    {
      assert NextTower(Heights(chain), k - 1, 0) == k;
      if key in contents {
        var p :| 1 <= p < |chain| && chain[p].key == key;
        KeyAround(chain, key, k, p);
      }
    }

    /** The search of Insert and Delete, which remembers the last node visited per level. */
    method FindUpdate(key: Str) returns (update: seq<Node<V>>, ghost pos: seq<nat>)
      requires Shape(head, level, chain)
      ensures |update| == MAX_LEVEL && |pos| == level + 1
      ensures forall i :: 0 <= i <= level ==>
                            LastBelow(chain, key, i, pos[i]) && update[i] == chain[pos[i]]
      ensures forall i :: level < i < MAX_LEVEL ==> update[i] == head
    {
      update := seq(MAX_LEVEL, _ => head);
      pos := seq(level + 1, _ => 0);
      var current := head;
      ghost var p: nat := 0;
      var i := level;
      while i >= 0
        invariant -1 <= i <= level && |pos| == level + 1 && |update| == MAX_LEVEL
        invariant p < |chain| && current == chain[p]
        invariant i >= 0 ==> current.forward.Length > i
        invariant p > 0 ==> Less(current.key, key)
        invariant forall j :: i < j <= level ==>
                                LastBelow(chain, key, j, pos[j]) && update[j] == chain[pos[j]]
        invariant forall j :: level < j < MAX_LEVEL ==> update[j] == head
      {
        while current.forward[i] != null && Less(current.forward[i].key, key)
          invariant p < |chain| && current == chain[p] && current.forward.Length > i
          invariant p > 0 ==> Less(current.key, key)
          decreases |chain| - p
        {
          p := NextTower(Heights(chain), p, i);
          current := current.forward[i];
        }
        update, pos := update[i := current], pos[i := p];
        i := i - 1;
      }
    }

    /** The pointer updates of Insert: at each of its levels, `n` takes over the pointer of
        its predecessor there. */
    method Relink(n: Node<V>, update: seq<Node<V>>, ghost pos: seq<nat>)
      requires Separate(chain) && forall p :: 0 <= p < |chain| ==> chain[p].forward != n.forward
      requires n.forward.Length <= |update| && |pos| == |update|
      requires forall i :: 0 <= i < n.forward.Length ==>
                             pos[i] < |chain| && update[i] == chain[pos[i]] && i < chain[pos[i]].forward.Length
      modifies Arrays(chain), n.forward
      ensures forall j :: 0 <= j < n.forward.Length ==> n.forward[j] == old(chain[pos[j]].forward[j])
      ensures forall p, j {:trigger chain[p].forward[j]} ::
                0 <= p < |chain| && 0 <= j < chain[p].forward.Length ==>
                  chain[p].forward[j] == if j < n.forward.Length && p == pos[j] then n else old(chain[p].forward[j])
    {
      for i := 0 to n.forward.Length
        invariant forall j :: 0 <= j < i ==> n.forward[j] == old(chain[pos[j]].forward[j])
        invariant forall p, j {:trigger chain[p].forward[j]} ::
                    0 <= p < |chain| && 0 <= j < chain[p].forward.Length ==>
                      chain[p].forward[j] == if j < i && p == pos[j] then n else old(chain[p].forward[j])
      {
        n.forward[i] := update[i].forward[i];
        update[i].forward[i] := n;
      }
    }

    /** Threads `n` in at position `k`. */
    method Splice(n: Node<V>, update: seq<Node<V>>, ghost pos: seq<nat>, ghost k: nat)
      requires 1 <= k <= |chain| && Linked(chain)
      requires Separate(chain) && forall p :: 0 <= p < |chain| ==> chain[p].forward != n.forward
      requires n.forward.Length <= |update| && |pos| == |update|
      requires forall i :: 0 <= i < n.forward.Length ==>
                             Before(chain, i, pos[i], k) && update[i] == chain[pos[i]]
      modifies Arrays(chain), n.forward
      ensures Linked(WithNode(chain, k, n))
    {
      Relink(n, update, pos);
      ghost var chain' := WithNode(chain, k, n);
      forall p, j | 0 <= p < |chain'| && 0 <= j < chain'[p].forward.Length
        ensures chain'[p].forward[j] == NodeAt(chain', NextTower(Heights(chain'), p, j))
      {
        SpliceNext(chain, k, n, if j < n.forward.Length then pos[j] else 0, p, j);
        if p < k {
          assert chain'[p] == chain[p];
        } else if p > k {
          assert chain'[p] == chain[p - 1];
        }
      }
    }

    /** The node that holds `key` if any does, and the path to just before it. */
    method Locate(key: Str) returns (update: seq<Node<V>>, current: Node?<V>, ghost pos: seq<nat>, ghost k: nat)
      requires Valid()
      ensures 1 <= k <= |chain| && current == NodeAt(chain, k)
      ensures key in contents <==> current != null && current.key == key
      ensures k > 1 ==> Less(chain[k - 1].key, key)
      ensures k < |chain| ==> !Less(chain[k].key, key)
      ensures |update| == |pos| == MAX_LEVEL
      ensures forall i :: 0 <= i < MAX_LEVEL ==>
                            Before(chain, i, pos[i], k) && update[i] == chain[pos[i]]
    {
      hide Holds, KeysSorted, Separate, Less, Before;
      update, pos := FindUpdate(key);
      k := pos[0] + 1;
      FoundOrAbsent(key, k);
      assert update[0] == chain[k - 1];
      current := update[0].forward[0];
      pos := PathBefore(key, pos, k);
    }

    /** Insert: bind `key` to `value`, in a new tower of any height if the key is new. */
    method Insert(key: Str, value: V)
      requires Valid()
      modifies Repr
      ensures Valid() && fresh(Repr - old(Repr))
      ensures contents == old(contents)[key := value]
    {
      var update, current, pos, k := Locate(key);
      if current != null && current.key == key {
        Overwrite(current, value, k);
        return;
      }
      var newLevel := RandomLevel();
      InsertNew(key, value, newLevel, update, pos, k);
    }

    method InsertNew(key: Str, value: V, newLevel: int, update: seq<Node<V>>, ghost pos: seq<nat>, ghost k: nat)
      requires Valid() && 1 <= k <= |chain| && 0 <= newLevel < MAX_LEVEL
      requires k > 1 ==> Less(chain[k - 1].key, key)
      requires k < |chain| ==> !Less(chain[k].key, key) && chain[k].key != key
      requires |update| == |pos| == MAX_LEVEL
      requires forall i :: 0 <= i < MAX_LEVEL ==>
                             Before(chain, i, pos[i], k) && update[i] == chain[pos[i]]
      modifies this, Arrays(chain)
      ensures Valid() && fresh(Repr - old(Repr))
      ensures contents == old(contents)[key := value]
    {
      hide Before, Less, Shape, Holds, KeysSorted, Separate;
      var newNode := new Node(key, Some(value), newLevel + 1);
      AddNode(newNode, update, pos, k);
      assert Repr - old(Repr) <= {newNode, newNode.forward};
    }

    /** The list's level is the height of its tallest tower. */
    lemma TopTower()
      requires Valid()
      ensures level > 0 ==> exists p :: 1 <= p < |chain| && chain[p].forward.Length == level + 1
    {
      if level > 0 {
        var q := NextTower(Heights(chain), 0, level);
        assert chain[0].forward[level] == NodeAt(chain, q);
        assert chain[q].forward.Length == level + 1;
      }
    }

    /** The remembered path brackets the insertion point at every level; above the list's
        level the head does. */
    lemma PathBefore(key: Str, pos: seq<nat>, k: nat) returns (pos': seq<nat>)
      requires Valid()
      requires |pos| == level + 1 && k == pos[0] + 1
      requires forall i :: 0 <= i <= level ==> LastBelow(chain, key, i, pos[i])
      ensures |pos'| == MAX_LEVEL && pos <= pos'
      ensures forall i :: level < i < MAX_LEVEL ==> pos'[i] == 0
      ensures forall i :: 0 <= i < MAX_LEVEL ==> Before(chain, i, pos'[i], k)
      ensures k <= |chain| && (k > 1 ==> Less(chain[k - 1].key, key))
      ensures k < |chain| ==> !Less(chain[k].key, key)
    {
      hide Less, Holds, Separate, Owned, KeysSorted;
      pos' := pos + seq(MAX_LEVEL - |pos|, _ => 0);
      assert LastBelow(chain, key, 0, k - 1);
      assert NextTower(Heights(chain), k - 1, 0) == k;
      forall i | 0 <= i < MAX_LEVEL ensures Before(chain, i, pos'[i], k) {
        if i <= level { LastBelowBrackets(chain, key, i, pos[i], k); }
      }
    }

    /** Insert on a key already present. */
    method Overwrite(current: Node<V>, value: V, ghost k: nat)
      requires Valid()
      requires 1 <= k < |chain| && current == chain[k]
      modifies this`contents, current
      ensures Valid() && chain == old(chain) && Repr == old(Repr)
      ensures contents == old(contents)[current.key := value]
    {
      hide Less, NextTower, Heights, KeySet;
      ghost var before := contents;
      current.value := Some(value);
      contents := contents[current.key := value];
      OverwriteHolds(chain, k, before, value);
    }

    /** Insert on a new key: link the new tower, then account for it. */
    method AddNode(n: Node<V>, update: seq<Node<V>>, ghost pos: seq<nat>, ghost k: nat)
      requires Valid() && Fits(n, k)
      requires |update| == |pos| == MAX_LEVEL
      requires forall i :: 0 <= i < MAX_LEVEL ==>
                             Before(chain, i, pos[i], k) && update[i] == chain[pos[i]]
      modifies this, Arrays(chain), n.forward
      ensures Valid() && Repr == old(Repr) + {n, n.forward}
      ensures contents == old(contents)[n.key := n.value.value]
    {
      TopTower();
      Splice(n, update, pos, k);
      FinishInsert(n, k);
    }

    /** A fresh node whose key belongs right before position `k`. */
    ghost predicate Fits(n: Node<V>, k: nat)
      reads this, n
    {
      && n !in chain && n.value.Some? && 1 <= n.forward.Length <= MAX_LEVEL
      && (forall p :: 0 <= p < |chain| ==> chain[p].forward != n.forward)
      && 1 <= k <= |chain|
      && (k > 1 ==> Less(chain[k - 1].key, n.key))
      && (k < |chain| ==> !Less(chain[k].key, n.key) && chain[k].key != n.key)
    }

    /** The end of Insert: grow the list's level if the new tower is taller, and count it. */
    method FinishInsert(n: Node<V>, ghost k: nat)
      requires Fits(n, k) && 0 <= level < MAX_LEVEL && size == |chain| - 1 == |contents|
      requires chain[0] == head && head.forward.Length == MAX_LEVEL
      requires forall p :: 1 <= p < |chain| ==> 1 <= chain[p].forward.Length <= level + 1
      requires level > 0 ==> exists p :: 1 <= p < |chain| && chain[p].forward.Length == level + 1
      requires Separate(chain) && KeysSorted(chain) && Holds(chain, contents) && Linked(WithNode(chain, k, n))
      requires this in Repr && Owned(chain, Repr)
      modifies this
      ensures Valid() && Repr == old(Repr) + {n, n.forward}
      ensures contents == old(contents)[n.key := n.value.value]
    {
      hide SkipList.Valid, Linked, Less, Separate, Owned, KeysSorted, Holds;
      var level' := if n.forward.Length - 1 > level then n.forward.Length - 1 else level;
      ghost var chain', contents' := WithNode(chain, k, n), contents[n.key := n.value.value];
      WithNodeContents(chain, k, n, contents);
      WithNodeShape(head, level, chain, k, n);
      WithNodeOwned(chain, k, n, Repr);
      Install(level', size + 1, chain', contents', Repr + {n, n.forward});
    }

    /** Records the new level, size and ghost contents. */
    method Install(level: int, size: int, ghost chain: seq<Node<V>>, ghost contents: map<Str, V>,
                   ghost repr: set<object>)
      requires this in repr && Owned(chain, repr)
      requires Shape(head, level, chain) && Separate(chain) && KeysSorted(chain) && Holds(chain, contents)
      requires size == |chain| - 1 == |contents|
      requires level > 0 ==> head.forward[level] != null
      modifies this
      ensures Valid()
      ensures this.chain == chain && this.contents == contents && Repr == repr
    {
      hide Holds;
      this.level, this.size := level, size;
      this.chain, this.contents, Repr := chain, contents, repr;
    }

    /** The pointer updates of Delete: skip `current` level by level until a level does not
        reach it. */
    method Unlink(current: Node<V>, update: seq<Node<V>>, ghost pos: seq<nat>)
      requires Separate(chain) && 0 <= level < MAX_LEVEL
      requires |update| == |pos| == MAX_LEVEL
      requires current in chain && current.forward.Length <= level + 1
      requires forall i :: 0 <= i <= level ==>
                             && pos[i] < |chain| && update[i] == chain[pos[i]] && update[i] != current
                             && i < update[i].forward.Length
                             && (update[i].forward[i] == current <==> i < current.forward.Length)
      modifies Arrays(chain)
      ensures forall p, j {:trigger chain[p].forward[j]} ::
                0 <= p < |chain| && 0 <= j < chain[p].forward.Length ==>
                  chain[p].forward[j] == if j < current.forward.Length && p == pos[j]
                                         then old(current.forward[j]) else old(chain[p].forward[j])
    {
      for i := 0 to level + 1
        invariant i <= current.forward.Length
        invariant forall p, j {:trigger chain[p].forward[j]} ::
                    0 <= p < |chain| && 0 <= j < chain[p].forward.Length ==>
                      chain[p].forward[j] == if j < i && p == pos[j]
                                             then old(current.forward[j]) else old(chain[p].forward[j])
      {
        if update[i].forward[i] != current {
          break;
        }
        update[i].forward[i] := current.forward[i];
      }
    }

    /** Delete: drop the binding of `key`; false when there is none. */
    method Delete(key: Str) returns (found: bool)
      requires Valid()
      modifies Repr
      ensures Valid() && fresh(Repr - old(Repr))
      ensures found <==> key in old(contents)
      ensures contents == old(contents) - {key}
    {
      var update, current, pos, k := Locate(key);
      if current == null || current.key != key {
        return false;
      }
      RemoveNode(current, update, pos, k);
      return true;
    }

    /** Delete on a key present: unlink its tower, shrink the level, count it out. */
    method RemoveNode(current: Node<V>, update: seq<Node<V>>, ghost pos: seq<nat>, ghost k: nat)
      requires Valid()
      requires 1 <= k < |chain| && current == chain[k]
      requires |update| == |pos| == MAX_LEVEL
      requires forall i :: 0 <= i < MAX_LEVEL ==>
                             Before(chain, i, pos[i], k) && update[i] == chain[pos[i]]
      modifies this, Arrays(chain)
      ensures Valid() && Repr == old(Repr)
      ensures contents == old(contents) - {current.key}
    {
      UnlinkTower(current, update, pos, k);
      FinishDelete(current, k);
    }

    /** After the pointer updates every remaining pointer leads to the next remaining tower. */
    method UnlinkTower(current: Node<V>, update: seq<Node<V>>, ghost pos: seq<nat>, ghost k: nat)
      requires Shape(head, level, chain) && Separate(chain)
      requires 1 <= k < |chain| && current == chain[k]
      requires |update| == |pos| == MAX_LEVEL
      requires forall i :: 0 <= i < MAX_LEVEL ==>
                             Before(chain, i, pos[i], k) && update[i] == chain[pos[i]]
      modifies Arrays(chain)
      ensures Linked(WithoutNode(chain, k))
    {
      ghost var rest := WithoutNode(chain, k);
      assert chain == WithNode(rest, k, current);
      forall i | 0 <= i <= level
        ensures update[i].forward[i] == current <==> i < current.forward.Length
      {
        PredecessorLink(chain, k, i, pos[i]);
      }
      Unlink(current, update, pos);
      forall p, j | 0 <= p < |rest| && 0 <= j < rest[p].forward.Length
        ensures rest[p].forward[j] == NodeAt(rest, NextTower(Heights(rest), p, j))
      {
        WithoutNodeAt(chain, k, p);
        BeforeWithout(rest, k, current, j, pos[j]);
        UnspliceNext(rest, k, current, pos[j], p, j);
      }
    }

    /** The level-lowering loop of Delete: skip the levels that are empty. */
    method LowerLevel(ghost chain: seq<Node<V>>) returns (l: int)
      requires Shape(head, level, chain)
      ensures Shape(head, l, chain) && l <= level && (l > 0 ==> head.forward[l] != null)
    {
      l := level;
      while l > 0 && head.forward[l] == null
        invariant 0 <= l <= level
        invariant forall p :: 1 <= p < |chain| ==> 1 <= chain[p].forward.Length <= l + 1
      {
        assert chain[0].forward[l] == NodeAt(chain, NextTower(Heights(chain), 0, l));
        l := l - 1;
      }
    }

    /** The end of Delete: lower the level past the empty ones, and count the node out. */
    method FinishDelete(current: Node<V>, ghost k: nat)
      requires 1 <= k < |chain| && current == chain[k]
      requires Shape(head, level, WithoutNode(chain, k))
      requires Separate(chain) && KeysSorted(chain) && Holds(chain, contents)
      requires size == |chain| - 1 == |contents|
      requires this in Repr && Owned(chain, Repr)
      modifies this
      ensures Valid() && Repr == old(Repr)
      ensures contents == old(contents) - {current.key}
    {
      ghost var chain', contents' := WithoutNode(chain, k), contents - {current.key};
      var level' := LowerLevel(chain');
      WithoutNodeValid(chain, k, contents, Repr);
      Install(level', size - 1, chain', contents', Repr);
    }
  }

  /** A walk along level 0, starting before the first key. */
  class SkipListIterator<V> {
    var current: Node?<V>
    ghost const list: SkipList<V>
    ghost var pos: nat    // how many keys have been passed, the current one included

    ghost predicate Valid()
      reads this, list, list.Repr
    {
      list.Valid() && pos <= |list.chain| && current == NodeAt(list.chain, pos)
    }

    constructor (sl: SkipList<V>)
      requires sl.Valid()
      ensures Valid() && list == sl && pos == 0
    {
      current, list, pos := sl.head, sl, 0;
    }

    /** Next: step to the following key, if there is one. */
    method Next() returns (ok: bool)
      requires Valid() && this !in list.Repr
      modifies this
      ensures Valid()
      ensures pos == if old(pos) <= list.size then old(pos) + 1 else old(pos)
      ensures ok <==> pos <= list.size
    {
      hide Holds, KeysSorted, Separate;
      if current == null {
        return false;
      }
      assert NextTower(Heights(list.chain), pos, 0) == pos + 1;
      current, pos := current.forward[0], pos + 1;
      ok := current != null;
    }

    /** Key: the key under the iterator, empty past the end and before the start. */
    method Key() returns (k: Str)
      requires Valid()
      ensures k == if 1 <= pos <= list.size then list.SortedKeys()[pos - 1] else []
    {
      if current == null {
        return [];
      }
      k := current.key;
    }

    /** Value: the value bound to that key, nothing past the end and before the start. */
    method Value() returns (v: Option<V>)
      requires Valid()
      ensures v == if 1 <= pos <= list.size then Some(list.contents[list.SortedKeys()[pos - 1]]) else None
    {
      if current == null {
        return None;
      }
      v := current.value;
    }
  }

  /** The order of keys survives inserting a node between its neighbours. */
  lemma SortedAfterInsert<V>(chain: seq<Node<V>>, k: nat, n: Node<V>)
    requires KeysSorted(chain) && 1 <= k <= |chain|
    requires k > 1 ==> Less(chain[k - 1].key, n.key)
    requires k < |chain| ==> !Less(chain[k].key, n.key) && chain[k].key != n.key
    ensures KeysSorted(WithNode(chain, k, n))
    ensures n.key !in KeySet(chain)
    ensures KeySet(WithNode(chain, k, n)) == KeySet(chain) + {n.key}
  {
    var chain' := WithNode(chain, k, n);
    forall i, j | 1 <= i < j < |chain'| ensures Less(chain'[i].key, chain'[j].key) {
      if i == k { KeyAround(chain, n.key, k, j - 1); }
      else if j == k { KeyAround(chain, n.key, k, i); }
    }
    forall p | 1 <= p < |chain| ensures chain[p].key != n.key { KeyAround(chain, n.key, k, p); }
    KeySetInsert(chain, k, n);
  }

  lemma WithNodeHolds<V>(chain: seq<Node<V>>, k: nat, n: Node<V>, contents: map<Str, V>)
    requires 1 <= k <= |chain| && n.value.Some?
    requires Holds(chain, contents) && n.key !in KeySet(chain)
    ensures Holds(WithNode(chain, k, n), contents[n.key := n.value.value])
  {
    KeySetInsert(chain, k, n);
    var chain' := WithNode(chain, k, n);
    forall p | 1 <= p < |chain'| && p != k
      ensures chain'[p].value == Some(contents[chain'[p].key]) && chain'[p].key != n.key
    {
      assert chain'[p] == chain[if p < k then p else p - 1];
    }
  }

  lemma OverwriteHolds<V>(chain: seq<Node<V>>, k: nat, contents: map<Str, V>, value: V)
    requires 1 <= k < |chain| && KeysSorted(chain) && contents.Keys == KeySet(chain)
    requires chain[0].key == [] && chain[0].value.None? && chain[k].value == Some(value)
    requires forall p :: 1 <= p < |chain| && p != k ==> chain[p].value == Some(contents[chain[p].key])
    ensures Holds(chain, contents[chain[k].key := value])
    ensures |contents[chain[k].key := value]| == |contents|
  {
    hide Less;
    assert chain[k].key in KeySet(chain);
    assert contents[chain[k].key := value].Keys == contents.Keys;
    forall p | 1 <= p < |chain| && p != k ensures chain[p].key != chain[k].key {
      if p < k { LessAsymmetric(chain[p].key, chain[k].key); } else { LessAsymmetric(chain[k].key, chain[p].key); }
    }
  }

  lemma WithNodeContents<V>(chain: seq<Node<V>>, k: nat, n: Node<V>, contents: map<Str, V>)
    requires KeysSorted(chain) && 1 <= k <= |chain| && n.value.Some? && Holds(chain, contents)
    requires k > 1 ==> Less(chain[k - 1].key, n.key)
    requires k < |chain| ==> !Less(chain[k].key, n.key) && chain[k].key != n.key
    ensures KeysSorted(WithNode(chain, k, n)) && Holds(WithNode(chain, k, n), contents[n.key := n.value.value])
    ensures |contents[n.key := n.value.value]| == |contents| + 1
  {
    SortedAfterInsert(chain, k, n);
    WithNodeHolds(chain, k, n, contents);
  }

  lemma WithNodeShape<V>(head: Node<V>, level: int, chain: seq<Node<V>>, k: nat, n: Node<V>)
    requires 1 <= k <= |chain| && chain[0] == head && head.forward.Length == MAX_LEVEL
    requires 0 <= level < MAX_LEVEL && 1 <= n.forward.Length <= MAX_LEVEL
    requires forall p :: 1 <= p < |chain| ==> 1 <= chain[p].forward.Length <= level + 1
    requires Linked(WithNode(chain, k, n))
    requires level > 0 ==> exists p :: 1 <= p < |chain| && chain[p].forward.Length == level + 1
    ensures var level' := if n.forward.Length - 1 > level then n.forward.Length - 1 else level;
            && Shape(head, level', WithNode(chain, k, n))
            && (level' > 0 ==> head.forward[level'] != null)
  {
    var chain' := WithNode(chain, k, n);
    var level' := if n.forward.Length - 1 > level then n.forward.Length - 1 else level;
    assert chain'[0] == head && chain'[k] == n;
    forall p | 1 <= p < |chain'| && p != k ensures 1 <= chain'[p].forward.Length <= level + 1 {
      assert chain'[p] == chain[if p < k then p else p - 1];
    }
    if level' > 0 {
      var q := NextTower(Heights(chain'), 0, level');
      if level' > level {
        assert Heights(chain')[k] > level';
      } else {
        var p :| 1 <= p < |chain| && chain[p].forward.Length == level + 1;
        assert Heights(chain')[if p < k then p else p + 1] > level';
      }
      assert chain'[0].forward[level'] == NodeAt(chain', q);
    }
  }

  lemma WithNodeOwned<V>(chain: seq<Node<V>>, k: nat, n: Node<V>, repr: set<object>)
    requires 1 <= k <= |chain| && Owned(chain, repr)
    requires Separate(chain) && n !in chain && forall p :: 0 <= p < |chain| ==> chain[p].forward != n.forward
    ensures Owned(WithNode(chain, k, n), repr + {n, n.forward})
    ensures Separate(WithNode(chain, k, n))
  {
    var chain' := WithNode(chain, k, n);
    forall p | 0 <= p < |chain'| && p != k ensures chain'[p] in chain && chain'[p].forward != n.forward {
      assert chain'[p] == chain[if p < k then p else p - 1];
    }
  }

  lemma KeySetInsert<V>(chain: seq<Node<V>>, k: nat, n: Node<V>)
    requires 1 <= k <= |chain|
    ensures KeySet(WithNode(chain, k, n)) == KeySet(chain) + {n.key}
  {
    var chain' := WithNode(chain, k, n);
    assert chain'[k] == n;
    forall p | 1 <= p < |chain| ensures chain[p].key in KeySet(chain') {
      assert chain[p] == chain'[if p < k then p else p + 1];
    }
    forall p | 1 <= p < |chain'| ensures chain'[p].key in KeySet(chain) + {n.key} {
      assert p == k || chain'[p] == chain[if p < k then p else p - 1];
    }
  }

  ghost function WithNode<V>(chain: seq<Node<V>>, k: nat, n: Node<V>): (r: seq<Node<V>>)
    requires k <= |chain|
  {
    chain[..k] + [n] + chain[k..]
  }

  ghost function WithoutNode<V>(chain: seq<Node<V>>, k: nat): (r: seq<Node<V>>)
    requires k < |chain|
  {
    chain[..k] + chain[k + 1..]
  }

  /** Position `p` is the last tower taller than `i` before position `k`. */
  ghost predicate Before<V>(chain: seq<Node<V>>, i: nat, p: nat, k: nat) {
    p < k <= |chain| && chain[p].forward.Length > i && k <= NextTower(Heights(chain), p, i)
  }

  /** The successor of every position once `n` stands at `k`, in terms of the old successors. */
  lemma SpliceNext<V>(chain: seq<Node<V>>, k: nat, n: Node<V>, b: nat, p: nat, j: nat)
    requires 1 <= k <= |chain| && p <= |chain|
    requires j < n.forward.Length ==> Before(chain, j, b, k)
    requires p == k ==> j < n.forward.Length
    requires p < k ==> chain[p].forward.Length > j
    ensures NodeAt(WithNode(chain, k, n), NextTower(Heights(WithNode(chain, k, n)), p, j)) ==
            if p < k then
              if j < n.forward.Length && p == b then n
              else NodeAt(chain, NextTower(Heights(chain), p, j))
            else
              NodeAt(chain, NextTower(Heights(chain), if p == k then b else p - 1, j))
  {
    hide NextTower, NodeAt, WithNode, Heights, WithTower;
    var t, h := n.forward.Length, Heights(chain);
    HeightsInserted(chain, k, n);
    var q := SplicedTower(h, k, t, if j < t then b else 0, p, j);
    NodeAtInserted(chain, k, n, q);
  }

  /** The index SpliceNext speaks about. */
  lemma SplicedTower(h: seq<nat>, k: nat, t: nat, b: nat, p: nat, j: nat) returns (q: nat)
    requires 1 <= k <= |h| && p <= |h|
    requires j < t ==> b < k && h[b] > j && k <= NextTower(h, b, j)
    requires p == k ==> j < t
    requires p < k ==> h[p] > j
    ensures q == NextTower(WithTower(h, k, t), p, j)
    ensures p < k && j < t && p == b ==> q == k
    ensures p < k && !(j < t && p == b) ==> q == NextTower(h, p, j) < k || q - 1 == NextTower(h, p, j) >= k
    ensures p == k ==> q - 1 == NextTower(h, b, j) >= k
    ensures p > k ==> q - 1 == NextTower(h, p - 1, j) >= k
  {
    NextTowerInsert(h, k, t, p, j);
    q := NextTower(WithTower(h, k, t), p, j);
    if j < t && p < k { OnlyPredecessor(h, k, b, p, j); }
    if p == k { SameSuccessor(h, k, b, j); }
  }

  lemma HeightsInserted<V>(chain: seq<Node<V>>, k: nat, n: Node<V>)
    requires k <= |chain|
    ensures Heights(WithNode(chain, k, n)) == WithTower(Heights(chain), k, n.forward.Length)
  {
  }

  lemma NodeAtInserted<V>(chain: seq<Node<V>>, k: nat, n: Node<V>, q: nat)
    requires k <= |chain|
    ensures NodeAt(WithNode(chain, k, n), q) ==
        if q < k then NodeAt(chain, q) else if q == k then n else NodeAt(chain, q - 1)
  {
  }

  /** Among the towers before `k`, only the last one's successor is at or past `k`. */
  lemma OnlyPredecessor(h: seq<nat>, k: nat, b: nat, p: nat, j: nat)
    requires b < k <= |h| && p < k && h[b] > j && h[p] > j && k <= NextTower(h, b, j)
    ensures k <= NextTower(h, p, j) <==> p == b
  {
  }

  lemma SameSuccessor(h: seq<nat>, k: nat, b: nat, j: nat)
    requires b < k <= |h| && k <= NextTower(h, b, j)
    ensures NextTower(h, k - 1, j) == NextTower(h, b, j)
  {
    NextTowerUnique(h, b, j, NextTower(h, k - 1, j));
  }

  /** The level-`i` predecessor of position `k` points to it exactly at the levels of its tower. */
  lemma PredecessorLink<V>(chain: seq<Node<V>>, k: nat, i: nat, b: nat)
    requires 1 <= k < |chain| && Linked(chain) && Separate(chain) && Before(chain, i, b, k)
    ensures chain[b].forward[i] == chain[k] <==> i < chain[k].forward.Length
  {
    var h := Heights(chain);
    var q := NextTower(h, b, i);
    assert chain[b].forward[i] == NodeAt(chain, q);
    if i < h[k] { NextTowerUnique(h, b, i, k); }
  }

  /** Removing position `k` keeps the predecessors of `k`. */
  lemma BeforeWithout<V>(rest: seq<Node<V>>, k: nat, n: Node<V>, j: nat, b: nat)
    requires 1 <= k <= |rest| && Before(WithNode(rest, k, n), j, b, k)
    ensures Before(rest, j, b, k)
  {
    var chain := WithNode(rest, k, n);
    assert chain[b] == rest[b];
    assert Heights(chain) == WithTower(Heights(rest), k, n.forward.Length);
    NextTowerInsert(Heights(rest), k, n.forward.Length, b, j);
  }

  /** SpliceNext read backwards: the pointers of the remaining nodes once `n` at `k` is gone. */
  lemma UnspliceNext<V>(rest: seq<Node<V>>, k: nat, n: Node<V>, b: nat, p: nat, j: nat)
    requires 1 <= k <= |rest| && p < |rest| && rest[p].forward.Length > j
    requires Before(rest, j, b, k)
    ensures var chain := WithNode(rest, k, n);
            var q := if p < k then p else p + 1;
            NodeAt(rest, NextTower(Heights(rest), p, j)) ==
            NodeAt(chain, NextTower(Heights(chain), if j < n.forward.Length && q == b then k else q, j))
  {
    hide NextTower, NodeAt, WithNode, Heights;
    SpliceNext(rest, k, n, b, if p < k then p else p + 1, j);
    if j < n.forward.Length { SpliceNext(rest, k, n, b, k, j); }
  }

  lemma WithoutNodeAt<V>(chain: seq<Node<V>>, k: nat, p: nat)
    requires k < |chain| && p < |chain| - 1
    ensures WithoutNode(chain, k)[p] == chain[if p < k then p else p + 1]
  {
  }

  lemma WithoutNodeSorted<V>(chain: seq<Node<V>>, k: nat)
    requires 1 <= k < |chain| && KeysSorted(chain) && Separate(chain)
    ensures KeysSorted(WithoutNode(chain, k)) && Separate(WithoutNode(chain, k))
    ensures forall p :: 1 <= p < |chain| && p != k ==> chain[p].key != chain[k].key
  {
    var rest, key := WithoutNode(chain, k), chain[k].key;
    forall p | 0 <= p < |rest| ensures rest[p] == chain[if p < k then p else p + 1] { WithoutNodeAt(chain, k, p); }
    forall p | 1 <= p < |chain| && p != k ensures chain[p].key != key {
      if p < k { LessAsymmetric(chain[p].key, key); } else { LessAsymmetric(key, chain[p].key); }
    }
  }

  lemma WithoutNodeValid<V>(chain: seq<Node<V>>, k: nat, contents: map<Str, V>, repr: set<object>)
    requires 1 <= k < |chain| && KeysSorted(chain) && Separate(chain) && Holds(chain, contents) && Owned(chain, repr)
    ensures KeysSorted(WithoutNode(chain, k)) && Separate(WithoutNode(chain, k))
    ensures Holds(WithoutNode(chain, k), contents - {chain[k].key}) && Owned(WithoutNode(chain, k), repr)
    ensures |contents - {chain[k].key}| == |contents| - 1
  {
    hide Less, Holds;
    WithoutNodeSorted(chain, k);
    WithoutNodeHolds(chain, k, contents);
  }

  lemma WithoutNodeHolds<V>(chain: seq<Node<V>>, k: nat, contents: map<Str, V>)
    requires 1 <= k < |chain| && Holds(chain, contents)
    requires forall p :: 1 <= p < |chain| && p != k ==> chain[p].key != chain[k].key
    ensures Holds(WithoutNode(chain, k), contents - {chain[k].key})
    ensures chain[k].key in contents && |contents - {chain[k].key}| == |contents| - 1
  {
    var rest, key := WithoutNode(chain, k), chain[k].key;
    var contents' := contents - {key};
    forall p | 0 <= p < |rest| ensures rest[p] == chain[if p < k then p else p + 1] { WithoutNodeAt(chain, k, p); }
    assert chain == WithNode(rest, k, chain[k]);
    KeySetInsert(rest, k, chain[k]);
    assert key !in KeySet(rest);
    assert contents'.Keys == contents.Keys - {key} == KeySet(rest);
    assert |contents'.Keys| == |contents.Keys| - 1;
  }
}
