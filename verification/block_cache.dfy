/** The LRU cache of verified data blocks: a recency list, a hash index into it, and the bytes used. */
module BlockCaches {
  import opened Bytes

  datatype CacheKey = CacheKey(table: nat, offset: nat)

  datatype Node = Node(key: CacheKey, block: bytes)

  function Used(lru: seq<Node>): nat {
    if lru == [] then 0 else Used(lru[..|lru| - 1]) + |lru[|lru| - 1].block|
  }

  ghost predicate Distinct(lru: seq<Node>) {
    forall i, j :: 0 <= i < j < |lru| ==> lru[i].key != lru[j].key
  }

  /** The index holds exactly the listed nodes. */
  ghost predicate Indexed(lru: seq<Node>, index: map<CacheKey, Node>) {
    && (forall i :: 0 <= i < |lru| ==> lru[i].key in index && index[lru[i].key] == lru[i])
    && (forall k :: k in index ==> index[k] in lru && index[k].key == k)
  }

  function WithoutNode(lru: seq<Node>, node: Node): seq<Node> {
    if lru == [] then [] else if lru[0] == node then lru[1..] else [lru[0]] + WithoutNode(lru[1..], node)
  }

  lemma {:induction false} UsedAppend(x: seq<Node>, y: seq<Node>)
    ensures Used(x + y) == Used(x) + Used(y)
    decreases |y|
  {
    if y == [] {
      assert x + y == x;
    } else {
      assert (x + y)[..|x + y| - 1] == x + y[..|y| - 1];
      UsedAppend(x, y[..|y| - 1]);
    }
  }

  lemma UsedCons(node: Node, lru: seq<Node>)
    ensures Used([node] + lru) == |node.block| + Used(lru)
  {
    UsedAppend([node], lru);
    assert [node][..0] == [];
  }

  lemma {:induction false} WithoutMembers(lru: seq<Node>, node: Node)
    requires Distinct(lru) && node in lru
    ensures Distinct(WithoutNode(lru, node))
    ensures forall n :: n in WithoutNode(lru, node) <==> n in lru && n != node
    decreases |lru|
  {
    var rest := lru[1..];
    assert forall n :: n in rest ==> n.key != lru[0].key;
    if lru[0] != node {
      WithoutMembers(rest, node);
      assert forall j :: 0 <= j < |WithoutNode(rest, node)| ==> WithoutNode(rest, node)[j] in rest;
    }
  }

  lemma {:induction false} WithoutUsed(lru: seq<Node>, node: Node)
    requires node in lru
    ensures Used(lru) == Used(WithoutNode(lru, node)) + |node.block|
    decreases |lru|
  {
    assert lru == [lru[0]] + lru[1..];
    UsedCons(lru[0], lru[1..]);
    if lru[0] != node {
      WithoutUsed(lru[1..], node);
      UsedCons(lru[0], WithoutNode(lru[1..], node));
    }
  }

  /** Moving a node to the front keeps the nodes, their distinctness and their total size. */
  lemma TouchKeeps(lru: seq<Node>, index: map<CacheKey, Node>, node: Node)
    requires Distinct(lru) && Indexed(lru, index) && node in lru
    ensures var touched := [node] + WithoutNode(lru, node);
            Distinct(touched) && Indexed(touched, index) && Used(touched) == Used(lru)
  {
    hide Used, WithoutNode;
    WithoutMembers(lru, node);
    WithoutUsed(lru, node);
    UsedCons(node, WithoutNode(lru, node));
    var rest := WithoutNode(lru, node);
    forall j | 0 <= j < |rest| ensures rest[j].key != node.key && rest[j] in lru {
      assert rest[j] in rest;
      var i :| 0 <= i < |lru| && lru[i] == rest[j];
      var m :| 0 <= m < |lru| && lru[m] == node;
    }
  }

  lemma PushKeeps(lru: seq<Node>, index: map<CacheKey, Node>, node: Node)
    requires Distinct(lru) && Indexed(lru, index) && node.key !in index
    ensures Distinct([node] + lru) && Indexed([node] + lru, index[node.key := node])
    ensures Used([node] + lru) == Used(lru) + |node.block|
  {
    hide Used;
    UsedCons(node, lru);
    var later := index[node.key := node];
    forall k | k in later ensures later[k] in [node] + lru && later[k].key == k {
      if k != node.key {
        assert index[k] in lru;
      }
    }
  }

  lemma PopKeeps(lru: seq<Node>, index: map<CacheKey, Node>)
    requires Distinct(lru) && Indexed(lru, index) && lru != []
    ensures var front, last := lru[..|lru| - 1], lru[|lru| - 1];
            && Distinct(front) && Indexed(front, index - {last.key})
            && Used(lru) == Used(front) + |last.block|
  {
    hide Used;
    var front, last := lru[..|lru| - 1], lru[|lru| - 1];
    UsedAppend(front, [last]);
    assert lru == front + [last];
    SingleUse(last);
    FrontIndexed(front, last, index);
  }

  lemma FrontIndexed(front: seq<Node>, last: Node, index: map<CacheKey, Node>)
    requires Distinct(front + [last]) && Indexed(front + [last], index)
    ensures Distinct(front) && Indexed(front, index - {last.key})
  {
    var lru := front + [last];
    var rest := index - {last.key};
    assert forall i :: 0 <= i < |front| ==> lru[i] == front[i];
    assert lru[|front|] == last;
    forall k | k in rest ensures rest[k] in front && rest[k].key == k {
      assert index[k] in lru;
    }
  }

  lemma SingleUse(node: Node)
    ensures Used([node]) == |node.block| && Used([]) == 0
  {
    assert [node][..0] == [];
  }

  class BlockCache {
    const capacity: nat
    var lru: seq<Node>
    var index: map<CacheKey, Node>
    var used: nat

    /** The list and the index are in bijection, and the byte count is the list's. */
    ghost predicate Tracked()
      reads this
    {
      Distinct(lru) && Indexed(lru, index) && used == Used(lru)
    }

    ghost predicate Valid()
      reads this
    {
      Tracked() && used <= capacity
    }

    constructor (capacity: nat)
      ensures Valid() && lru == [] && this.capacity == capacity
    {
      this.capacity := capacity;
      lru, index, used := [], map[], 0;
    }

    /** A hit returns the cached block and makes it the most recent; nothing else changes. */
    method Find(key: CacheKey) returns (r: Option<bytes>)
      requires Valid()
      modifies this
      ensures Valid() && index == old(index)
      ensures r == if key in old(index) then Some(old(index)[key].block) else None
      ensures r.Some? ==> lru == [old(index)[key]] + WithoutNode(old(lru), old(index)[key])
      ensures r.None? ==> lru == old(lru)
    {
      if key !in index {
        return None;
      }
      var node := index[key];
      TouchKeeps(lru, index, node);
      hide Distinct, Indexed, Used, WithoutNode;
      lru := [node] + WithoutNode(lru, node);
      r := Some(node.block);
    }

    method RemoveLast()
      requires Tracked() && lru != []
      modifies this
      ensures Tracked() && lru == old(lru)[..|old(lru)| - 1]
    {
      PopKeeps(lru, index);
      hide Distinct, Indexed, Used;
      var last := lru[|lru| - 1];
      used := used - |last.block|;
      index := index - {last.key};
      lru := lru[..|lru| - 1];
    }

    /** A new block goes to the front, and the least recent ones leave until the rest fits. */
    method Insert(key: CacheKey, block: bytes)
      requires Valid()
      modifies this
      ensures Valid()
      ensures key in old(index) ==> lru == old(lru) && index == old(index)
      ensures key !in old(index) ==> LongestFit(lru, [Node(key, block)] + old(lru), capacity)
      ensures key !in old(index) ==>
                var all := [Node(key, block)] + old(lru);
                lru <= all && Used(lru) <= capacity && (|lru| < |all| ==> Used(all[..|lru| + 1]) > capacity)
      ensures forall k :: k in index ==> index[k] == Node(key, block) || (k in old(index) && index[k] == old(index)[k])
    {
      if key in index {
        return;
      }
      var node := Node(key, block);
      hide Distinct, Indexed, Used, Evicting, LongestFit;
      ghost var before, beforeIndex := lru, index;
      ghost var all := [node] + lru;
      PushKeeps(lru, index, node);
      used := used + |block|;
      lru := [node] + lru;
      index := index[key := node];
      NothingEvicted(lru, capacity);
      while used > capacity && lru != []
        invariant Tracked() && Evicting(lru, all, capacity)
        decreases |lru|
      {
        EvictOne(lru, all, capacity);
        RemoveLast();
      }
      SingleUse(node);
      EvictionEnds(lru, index, node, before, beforeIndex, capacity);
    }
  }

  /** The longest prefix of `all` whose blocks fit. */
  ghost predicate LongestFit(lru: seq<Node>, all: seq<Node>, capacity: nat) {
    && lru <= all && Used(lru) <= capacity
    && (|lru| < |all| ==> Used(all[..|lru| + 1]) > capacity)
  }

  ghost predicate Evicting(lru: seq<Node>, all: seq<Node>, capacity: nat) {
    lru <= all && (|lru| < |all| ==> Used(all[..|lru| + 1]) > capacity)
  }

  lemma NothingEvicted(all: seq<Node>, capacity: nat)
    ensures Evicting(all, all, capacity)
  {
  }

  lemma EvictOne(lru: seq<Node>, all: seq<Node>, capacity: nat)
    requires Evicting(lru, all, capacity) && lru != [] && Used(lru) > capacity
    ensures Evicting(lru[..|lru| - 1], all, capacity)
  {
    hide Used;
    assert all[..|lru|] == lru;
  }

  lemma EvictionEnds(lru: seq<Node>, index: map<CacheKey, Node>, node: Node,
                     before: seq<Node>, beforeIndex: map<CacheKey, Node>, capacity: nat)
    requires Indexed(before, beforeIndex) && Indexed(lru, index) && Evicting(lru, [node] + before, capacity)
    requires Used(lru) <= capacity
    ensures LongestFit(lru, [node] + before, capacity)
    ensures forall k :: k in index ==> index[k] == node || (k in beforeIndex && index[k] == beforeIndex[k])
  {
    hide Used;
    var all := [node] + before;
    forall k | k in index ensures index[k] == node || (k in beforeIndex && index[k] == beforeIndex[k]) {
      var i :| 0 <= i < |lru| && lru[i] == index[k];
      assert all[i] == lru[i];
      if i > 0 {
        assert before[i - 1] == lru[i];
      }
    }
  }
}
