/**
  The class mymap of mymap.h, specialised to mymap<int, string>.  Its nodes live in the arena
  `nodes` of the ThreadedMap module; `root` is the index of the root node, or Null.  The ghost
  fields carry the invariant: `Contents` is the map the tree stands for, `Sub` and `Parent` the
  per-node bookkeeping of ThreadedMap.TreeOkExcept.
 */
module Mymap {
  import opened ThreadedMap

  class MyMap {
    var nodes: seq<Node>
    var root: int
    var size: int
    ghost var Contents: map<int, string>
    ghost var Sub: seq<set<int>>
    ghost var Parent: seq<int>

    /** A threaded BST whose keys are exactly those of Contents, one node per key; `size`
        counts the pairs.  An empty map has no nodes, and otherwise the root is the first node
        ever allocated. */
    ghost predicate Valid()
      reads this
    {
      && TreeOkExcept(nodes, Sub, Parent, Contents, Null)
      && DistinctKeys(nodes)
      && (root == Null <==> nodes == [])
      && (nodes != [] ==> root == 0)
      && size == |nodes| == |Contents|
      && Contents.Keys == SubOf(Sub, root)
    }

    /** The entries of the subtree of node j. */
    ghost function SubMap(j: int): map<int, string>
      reads this
      requires Valid() && 0 <= j < |nodes|
    {
      map k | k in Sub[j] && k in Contents :: Contents[k]
    }

    /** The default constructor (mymap.h:234-237): an empty map. */
    constructor ()
      ensures Valid() && Contents == map[] && size == 0
    {
      nodes, root, size := [], Null, 0;
      Contents, Sub, Parent := map[], [], [];
    }

    /** The search of findCurrentKey (mymap.h:138-151) from `start`: it reports whether key is
        in the subtree of start and leaves cur at the node holding it, or null. */
    method FindCurrentKey(key: int, start: int) returns (found: bool, cur: int)
      requires Valid() && (start == Null || 0 <= start < |nodes|)
      ensures cur == Locate(nodes, start, key)
      ensures found <==> key in SubOf(Sub, start)
      ensures found ==> 0 <= cur < |nodes| && nodes[cur].key == key && key in Contents && nodes[cur].value == Contents[key]
      ensures !found ==> cur == Null
    {
      LocateFinds(nodes, Sub, Parent, Contents, start, key);
      cur := start;
      while cur != Null
        invariant cur == Null || 0 <= cur < |nodes|
        invariant Locate(nodes, cur, key) == Locate(nodes, start, key)
        decreases Measure(nodes, cur)
      {
        if nodes[cur].key == key {
          return true, cur;
        } else if nodes[cur].key < key {
          cur := if nodes[cur].isThreaded then Null else nodes[cur].right;
        } else {
          cur := nodes[cur].left;
        }
      }
      return false, cur;
    }

    /** putNode (mymap.h:98-131): walks down from the root and hangs the fresh node n in the
        first empty slot on key's side, exactly as Link describes. */
    method PutNode(n: int, key: int)
      requires TreeOkExcept(nodes, Sub, Parent, Contents, Null)
      requires root == 0 < n == |nodes| - 1
      requires nodes[n].key == key && nodes[n].left == Null && nodes[n].right == Null
      requires forall i :: 0 <= i < n ==> nodes[i].left != n && nodes[i].right != n
      requires key !in Sub[0]
      modifies this
      ensures Linked(old(nodes)) && nodes == Link(old(nodes), 0, n)
      ensures |nodes| == old(|nodes|) && forall i :: 0 <= i < |nodes| ==> nodes[i].key == old(nodes[i].key)
      ensures TreeOkExcept(nodes, Sub, Parent, Contents, Null)
      ensures Sub[0] == old(Sub[0]) + {key}
      ensures root == old(root) && size == old(size) && Contents == old(Contents)
    {
      var cur := root;
      ghost var pend := Null;
      DescentStart(nodes, Sub, Parent, Contents, key, n);
      while cur != Null
        invariant nodes == old(nodes) && root == old(root) && size == old(size)
        invariant Parent == old(Parent) && Contents == old(Contents)
        invariant Descent(nodes, Sub, Parent, Contents, pend, cur, key, n, old(Sub[0]))
        decreases n - cur
      {
        if nodes[cur].key > key {
          if nodes[cur].left == Null {
            DescentAttach(nodes, Sub, Parent, Contents, pend, cur, key, n, old(Sub[0]));
            nodes := AttachLeft(nodes, cur, n);
            Sub := Sub[cur := Sub[cur] + {key}];
            Parent := Parent[n := cur];
            break;
          } else {
            DescentStep(nodes, Sub, Parent, Contents, pend, cur, key, n, old(Sub[0]));
            Sub := Sub[cur := Sub[cur] + {key}];
            pend := cur;
            cur := nodes[cur].left;
          }
        } else {
          if nodes[cur].right == Null {
            DescentAttach(nodes, Sub, Parent, Contents, pend, cur, key, n, old(Sub[0]));
            nodes := AttachRight(nodes, cur, n);
            Sub := Sub[cur := Sub[cur] + {key}];
            Parent := Parent[n := cur];
            break;
          } else {
            DescentStep(nodes, Sub, Parent, Contents, pend, cur, key, n, old(Sub[0]));
            Sub := Sub[cur := Sub[cur] + {key}];
            pend := cur;
            cur := if nodes[cur].isThreaded then Null else nodes[cur].right;
          }
        }
      }
    }

    /** put (mymap.h:318-351): overwrites the value of an existing key, and otherwise adds a
        node for the pair, as the root of an empty tree or through putNode. */
    method Put(key: int, value: string)
      requires Valid()
      modifies this
      ensures Valid()
      ensures Contents == old(Contents)[key := value]
      ensures nodes == Inserted(old(nodes), old(root), key, value)
    {
      var found, cur := FindCurrentKey(key, root);
      if found {
        SetValueOk(nodes, Sub, Parent, Contents, cur, value);
        nodes := nodes[cur := nodes[cur].(value := value)];
        Contents := Contents[key := value];
        return;
      }
      AppendOk(nodes, Sub, Parent, Contents, key, value);
      var n := |nodes|;
      nodes := nodes + [NewNode(key, value)];
      Sub, Parent, Contents := Sub + [{key}], Parent + [Null], Contents[key := value];
      if root == Null {
        root := n;
        size := size + 1;
        return;
      }
      PutNode(n, key);
      size := size + 1;
    }
  
    /** contains (mymap.h:359-365). */
    method Contains(key: int) returns (b: bool)
      requires Valid()
      ensures b <==> key in Contents
    {
      var cur;
      b, cur := FindCurrentKey(key, root);
    }

    /** get (mymap.h:375-387): the key's value, or the default string when it is absent; the
        map is not changed. */
    method Get(key: int) returns (v: string)
      requires Valid()
      ensures key in Contents ==> v == Contents[key]
      ensures key !in Contents ==> v == ""
    {
      var found, cur := FindCurrentKey(key, root);
      if !found {
        return "";
      } else {
        return nodes[cur].value;
      }
    }

    /** operator[] (mymap.h:400-413): like get, but an absent key is inserted with the
        default string. */
    method Index(key: int) returns (v: string)
      requires Valid()
      modifies this
      ensures Valid()
      ensures key in old(Contents) ==> v == old(Contents)[key] && Contents == old(Contents)
      ensures key !in old(Contents) ==> v == "" && Contents == old(Contents)[key := ""]
      ensures key in old(Contents) ==> nodes == old(nodes) && root == old(root) && size == old(size)
      ensures key !in old(Contents) ==> nodes == Inserted(old(nodes), old(root), key, "")
    {
      var found, cur := FindCurrentKey(key, root);
      if found {
        v := Get(key);
      } else {
        Put(key, "");
        v := "";
      }
    }

    /** Size (mymap.h:421-423): the number of pairs. */
    method Size() returns (s: int)
      requires Valid()
      ensures s == |Contents|
    {
      return size;
    }

    /** clear (mymap.h:290-294): drops every node. */
    method Clear()
      modifies this
      ensures Valid() && Contents == map[] && size == 0 && root == Null
    {
      nodes, root, size := [], Null, 0;
      Contents, Sub, Parent := map[], [], [];
    }

    /** inOrder in its toVector mode (mymap.h:157-175): appends the entries of the subtree at
        node, left subtree first, and never follows the right link of a threaded node. */
    method InOrder(node: int, vec: seq<(int, string)>) returns (out: seq<(int, string)>)
      requires Linked(nodes) && (node == Null || 0 <= node < |nodes|)
      ensures out == vec + InOrderEntries(nodes, node)
      decreases Measure(nodes, node)
    {
      if node == Null {
        return vec;
      }
      var right := if nodes[node].isThreaded then Null else nodes[node].right;
      out := InOrder(nodes[node].left, vec);
      out := out + [(nodes[node].key, nodes[node].value)];
      out := InOrder(right, out);
    }

    /** toVector (mymap.h:479-485): every pair of the map exactly once, in ascending key
        order. */
    method ToVector() returns (v: seq<(int, string)>)
      requires Valid()
      ensures v == InOrderEntries(nodes, root)
      ensures StrictlyAscending(v)
      ensures forall e :: e in v <==> e.0 in Contents && Contents[e.0] == e.1
      ensures |v| == |Contents|
    {
      v := InOrder(root, []);
      EntriesOfContents(nodes, Sub, Parent, Contents, root);
      WalkFacts(nodes, Sub, Parent, Contents, root);
      AscendingKeyCount(v);
    }

    /** copyNode (mymap.h:195-204) used as the first step of a copy: the empty map gets a root
        that carries the key, value, counters and thread flag of nd, with no children. */
    method CopyNode(nd: Node)
      requires Valid() && nodes == [] && size == 0
      modifies this
      ensures Valid()
      ensures nodes == [nd.(left := Null, right := Null)] && root == 0
      ensures Contents == map[nd.key := nd.value]
    {
      nodes := [nd.(left := Null, right := Null)];
      root := 0;
      size := size + 1;
      Contents, Sub, Parent := map[nd.key := nd.value], [{nd.key}], [Null];
    }

    /** copy (mymap.h:209-224): puts the pair of node j of other, then copies its right and
        its left subtree. */
    method Copy(other: MyMap, j: int)
      requires other != this && Valid() && other.Valid() && 0 <= j < |other.nodes|
      modifies this
      ensures Valid()
      ensures Contents == old(Contents) + other.SubMap(j)
      decreases |other.nodes| - j
    {
      ghost var c0 := Contents;
      var nd := other.nodes[j];
      assert NodeOk(other.nodes, other.Sub, other.Parent, other.Contents, j, {});
      Put(nd.key, nd.value);
      ghost var c1 := Contents;
      // A threaded node has no right link (Valid), so the early return of mymap.h:215-217
      // is never taken.
      if nd.right != Null {
        Copy(other, nd.right);
      } else {
        UnionEmpty(c1);
      }
      ghost var c2 := Contents;
      if nd.left != Null {
        Copy(other, nd.left);
      } else {
        UnionEmpty(c2);
      }
      other.SubMapSplit(j);
      UnionSteps(c0, c1, c2, Contents, nd.key, nd.value, other.SubMapAt(nd.right), other.SubMapAt(nd.left));
    }

    /** The entries of the subtree at c, none for the null pointer. */
    ghost function SubMapAt(c: int): map<int, string>
      reads this
      requires Valid() && (c == Null || 0 <= c < |nodes|)
    {
      if c == Null then map[] else SubMap(c)
    }

    /** The entries of the subtree of node j are its own pair and those of its two subtrees. */
    lemma SubMapSplit(j: int)
      requires Valid() && 0 <= j < |nodes|
      ensures var nd := nodes[j];
        SubMap(j) == map[nd.key := nd.value] + SubMapAt(nd.right) + SubMapAt(nd.left)
    {
      var nd := nodes[j];
      assert NodeOk(nodes, Sub, Parent, Contents, j, {});
      assert SubMap(j).Keys == (map[nd.key := nd.value] + SubMapAt(nd.right) + SubMapAt(nd.left)).Keys;
    }

    lemma SubMapOfRoot()
      requires Valid() && root != Null
      ensures SubMap(root) == Contents
      ensures nodes[root].key in Contents && Contents[nodes[root].key] == nodes[root].value
    {
      assert NodeOk(nodes, Sub, Parent, Contents, root, {});
    }

    /** operator= (mymap.h:266-282): a map assigned from other holds other's pairs, in the
        same order; assigning a map to itself changes nothing. */
    method Assign(other: MyMap)
      requires Valid() && other.Valid()
      modifies this
      ensures Valid()
      ensures other == this ==> unchanged(this)
      ensures Contents == old(other.Contents) && size == old(other.size)
      ensures InOrderEntries(nodes, root) == old(InOrderEntries(other.nodes, other.root))
    {
      if this == other {
        return;
      }
      Clear();
      if other.root == Null {
        root := Null;
        return;
      }
      CopyNode(other.nodes[other.root]);
      ghost var c0 := Contents;
      Copy(other, other.root);
      other.SubMapOfRoot();
      CopiedAll(c0, other.Contents, Contents, other.nodes[other.root].key, other.nodes[other.root].value);
      size := other.size;
      SameEntries(other);
    }

    /** The copy constructor (mymap.h:247-256).  It dereferences other's root unconditionally,
        so other must not be empty. */
    constructor CopyOf(other: MyMap)
      requires other.Valid() && other.root != Null
      ensures Valid() && Contents == other.Contents && size == other.size
      ensures InOrderEntries(nodes, root) == InOrderEntries(other.nodes, other.root)
    {
      nodes, root, size := [], Null, 0;
      Contents, Sub, Parent := map[], [], [];
      new;
      CopyNode(other.nodes[other.root]);
      ghost var c0 := Contents;
      Copy(other, other.root);
      other.SubMapOfRoot();
      CopiedAll(c0, other.Contents, Contents, other.nodes[other.root].key, other.nodes[other.root].value);
      size := other.size;
      SameEntries(other);
    }

    /** Two valid maps with the same pairs list them identically. */
    lemma SameEntries(other: MyMap)
      requires Valid() && other.Valid() && Contents == other.Contents
      ensures InOrderEntries(nodes, root) == InOrderEntries(other.nodes, other.root)
    {
      EntriesOfContents(nodes, Sub, Parent, Contents, root);
      EntriesOfContents(other.nodes, other.Sub, other.Parent, other.Contents, other.root);
      AscendingUnique(InOrderEntries(nodes, root), InOrderEntries(other.nodes, other.root));
    }
  }

  lemma UnionEmpty(m: map<int, string>)
    ensures m + map[] == m
  {
  }

  /** Putting a pair and then two maps is adding all three at once. */
  lemma UnionSteps(c0: map<int, string>, c1: map<int, string>, c2: map<int, string>, c3: map<int, string>,
                   k: int, v: string, r: map<int, string>, l: map<int, string>)
    requires c1 == c0[k := v] && c2 == c1 + r && c3 == c2 + l
    ensures c3 == c0 + (map[k := v] + r + l)
  {
  }

  /** Copying every pair over a map that holds one of them gives exactly those pairs. */
  lemma CopiedAll(c0: map<int, string>, c: map<int, string>, m: map<int, string>, k: int, v: string)
    requires c0 == map[k := v] && m == c0 + c && k in c && c[k] == v
    ensures m == c
  {
  }
}
