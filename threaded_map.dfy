/**
  The ordered map of mymap.h: a binary search tree with "threaded" nodes, keyed by int and
  holding string values (the only instantiation the codec uses, mymap<int, string>).

  The nodes live in an arena `seq<Node>`; a pointer is an index into it and the null pointer
  is `Null`.  New nodes are always appended, and a node only ever points to nodes created after
  it, so every walk down the tree strictly increases the index.
 */
module ThreadedMap {

  /** The null pointer. */
  const Null: int := -1

  /** A tree node (mymap.h:24-32).  nL / nR are the counters putNode bumps; checkBalance reports them and copyNode copies
      them, but nothing restructures the tree from them. */
  datatype Node = Node(key: int, value: string, left: int, right: int, nL: int, nR: int, isThreaded: bool)

  /** The node `put` allocates before linking it (mymap.h:330-338). */
  function NewNode(key: int, value: string): Node
  {
    Node(key, value, Null, Null, 0, 0, false)
  }

  /** A link out of node i is null or points to a node allocated after i. */
  predicate LinkOk(ns: seq<Node>, i: int, c: int)
  {
    c == Null || i < c < |ns|
  }

  ghost predicate Linked(ns: seq<Node>)
  {
    forall i :: 0 <= i < |ns| ==> LinkOk(ns, i, ns[i].left) && LinkOk(ns, i, ns[i].right)
  }

  function Measure(ns: seq<Node>, cur: int): int
  {
    if cur == Null then 0 else |ns| - cur
  }

  // ---------------------------------------------------------------------------------------
  // The pointer algorithms of mymap.h as functions on the arena: they are the specifications
  // the methods of MyMap are proved against.

  /** The node findCurrentKey stops at (mymap.h:138-151): it never follows the right link of
      a threaded node. */
  function Locate(ns: seq<Node>, cur: int, key: int): (r: int)
    requires Linked(ns) && (cur == Null || 0 <= cur < |ns|)
    ensures r == Null || (0 <= r < |ns| && ns[r].key == key)
    decreases Measure(ns, cur)
  {
    if cur == Null then Null
    else if ns[cur].key == key then cur
    else if ns[cur].key < key then Locate(ns, if ns[cur].isThreaded then Null else ns[cur].right, key)
    else Locate(ns, ns[cur].left, key)
  }

  /** Hanging node n as the left child of p (mymap.h:106-108). */
  function AttachLeft(ns: seq<Node>, p: int, n: int): seq<Node>
    requires 0 <= p < |ns| && 0 <= n < |ns|
  {
    ns[p := ns[p].(left := n, nL := ns[p].nL + 1)][n := ns[n].(isThreaded := true)]
  }

  /** Hanging node n as the right child of p (mymap.h:118-123). */
  function AttachRight(ns: seq<Node>, p: int, n: int): seq<Node>
    requires 0 <= p < |ns| && 0 <= n < |ns|
  {
    ns[p := ns[p].(right := n, isThreaded := false, nR := ns[p].nR + 1)][n := ns[n].(isThreaded := true)]
  }

  /** The arena after putNode has linked node n below cur (mymap.h:98-131). */
  function Link(ns: seq<Node>, cur: int, n: int): seq<Node>
    requires Linked(ns) && 0 <= n < |ns| && (cur == Null || 0 <= cur < |ns|)
    decreases Measure(ns, cur)
  {
    if cur == Null then ns
    else if ns[cur].key > ns[n].key then
      if ns[cur].left == Null then AttachLeft(ns, cur, n) else Link(ns, ns[cur].left, n)
    else if ns[cur].right == Null then AttachRight(ns, cur, n)
    else Link(ns, if ns[cur].isThreaded then Null else ns[cur].right, n)
  }

  lemma AppendLinked(ns: seq<Node>, nd: Node)
    requires Linked(ns) && nd.left == Null && nd.right == Null
    ensures Linked(ns + [nd])
  {
    var ns' := ns + [nd];
    forall i | 0 <= i < |ns'| ensures LinkOk(ns', i, ns'[i].left) && LinkOk(ns', i, ns'[i].right) {
      if i < |ns| { assert ns'[i] == ns[i]; }
    }
  }

  /** The arena after put(key, value) on the tree rooted at root (mymap.h:318-351): an existing
      key only has its value overwritten; a new key gets a fresh node, which becomes the root of
      an empty tree and is otherwise linked in by putNode. */
  function Inserted(ns: seq<Node>, root: int, key: int, value: string): seq<Node>
    requires Linked(ns) && (root == Null || 0 <= root < |ns|)
  {
    var i := Locate(ns, root, key);
    if i != Null then ns[i := ns[i].(value := value)]
    else if root == Null then ns + [NewNode(key, value)]
    else
      AppendLinked(ns, NewNode(key, value));
      Link(ns + [NewNode(key, value)], root, |ns|)
  }

  /** In-order entries of the subtree at i, as inOrder collects them for toVector
      (mymap.h:157-175). */
  function InOrderEntries(ns: seq<Node>, i: int): seq<(int, string)>
    requires Linked(ns) && (i == Null || 0 <= i < |ns|)
    decreases Measure(ns, i)
  {
    if i == Null then []
    else
      InOrderEntries(ns, ns[i].left) + [(ns[i].key, ns[i].value)]
      + InOrderEntries(ns, if ns[i].isThreaded then Null else ns[i].right)
  }

  /** In-order (key, nL, nR) triples of the subtree at i, the content of checkBalance
      (mymap.h:157-175, 497-503) without its text layout. */
  function BalanceReport(ns: seq<Node>, i: int): seq<(int, int, int)>
    requires Linked(ns) && (i == Null || 0 <= i < |ns|)
    decreases Measure(ns, i)
  {
    if i == Null then []
    else
      BalanceReport(ns, ns[i].left) + [(ns[i].key, ns[i].nL, ns[i].nR)]
      + BalanceReport(ns, if ns[i].isThreaded then Null else ns[i].right)
  }

  predicate StrictlyAscending(s: seq<(int, string)>)
  {
    forall a, b :: 0 <= a < b < |s| ==> s[a].0 < s[b].0
  }

  function KeysOf(s: seq<(int, string)>): set<int>
  {
    set e | e in s :: e.0
  }

  // ---------------------------------------------------------------------------------------
  // Facts about the pure specification.

  /** putNode changes no node but the new one and its parent: the new node lands in an empty
      slot of a node that was already there, as a left child iff its key is smaller, and only
      that parent's counter on that side goes up by one.  No node is ever moved. */
  lemma {:induction false} LinkAttachesOnce(ns: seq<Node>, cur: int, n: int)
    requires Linked(ns) && 0 <= n < |ns| && 0 <= cur < |ns|
    requires forall i :: 0 <= i < |ns| ==> (ns[i].isThreaded ==> ns[i].right == Null)
    requires cur != n && forall i :: 0 <= i < |ns| ==> ns[i].left != n && ns[i].right != n
    ensures exists p :: (0 <= p < |ns| && p != n &&
      ((ns[p].left == Null && ns[n].key < ns[p].key && Link(ns, cur, n) == AttachLeft(ns, p, n)) ||
       (ns[p].right == Null && ns[p].key <= ns[n].key && Link(ns, cur, n) == AttachRight(ns, p, n))))
    decreases Measure(ns, cur)
  {
    if ns[cur].key > ns[n].key {
      if ns[cur].left == Null {
        assert Link(ns, cur, n) == AttachLeft(ns, cur, n);
      } else {
        LinkAttachesOnce(ns, ns[cur].left, n);
      }
    } else if ns[cur].right == Null {
      assert Link(ns, cur, n) == AttachRight(ns, cur, n);
    } else {
      LinkAttachesOnce(ns, ns[cur].right, n);
    }
  }

  /** Two strictly ascending entry lists with the same entries are the same list. */
  lemma {:induction false} AscendingUnique(a: seq<(int, string)>, b: seq<(int, string)>)
    requires StrictlyAscending(a) && StrictlyAscending(b)
    requires forall e :: e in a <==> e in b
    ensures a == b
    decreases |a|
  {
    if a == [] {
      assert forall i :: 0 <= i < |b| ==> b[i] in a;
    } else {
      assert a[0] in b;
      HeadsEqual(a, b);
      TailsSame(a, b);
      TailsSame(b, a);
      AscendingUnique(a[1..], b[1..]);
      assert a == [a[0]] + a[1..];
      assert b == [b[0]] + b[1..];
    }
  }

  /** The first entries of two such lists agree: each is the least key of the same set. */
  lemma HeadsEqual(a: seq<(int, string)>, b: seq<(int, string)>)
    requires StrictlyAscending(a) && StrictlyAscending(b) && a != [] && b != []
    requires forall e :: e in a <==> e in b
    ensures a[0] == b[0]
  {
    assert a[0] in b && b[0] in a;
    var k :| 0 <= k < |b| && b[k] == a[0];
    var m :| 0 <= m < |a| && a[m] == b[0];
    AscendingMin(a, m);
    AscendingMin(b, k);
  }

  /** The first key of a strictly ascending list is its least, and no other entry has it. */
  lemma AscendingMin(a: seq<(int, string)>, m: int)
    requires StrictlyAscending(a) && 0 <= m < |a|
    ensures a[0].0 <= a[m].0
    ensures a[0].0 == a[m].0 ==> m == 0
  {
    if 0 < m {
      assert a[0].0 < a[m].0;
    }
  }

  /** Past equal first entries, every later entry of a is a later entry of b. */
  lemma TailsSame(a: seq<(int, string)>, b: seq<(int, string)>)
    requires StrictlyAscending(a) && StrictlyAscending(b) && a != [] && b != [] && a[0] == b[0]
    requires forall e :: e in a <==> e in b
    ensures forall e :: e in a[1..] ==> e in b[1..]
  {
    forall e | e in a[1..] ensures e in b[1..] {
      var i :| 0 <= i < |a[1..]| && a[1..][i] == e;
      assert a[i + 1] == e && a[0].0 < e.0;
      assert e in b;
      var j :| 0 <= j < |b| && b[j] == e;
      assert j != 0;
      assert b[1..][j - 1] == e;
    }
  }

  /** A strictly ascending entry list holds each of its keys once. */
  lemma {:induction false} AscendingKeyCount(s: seq<(int, string)>)
    requires StrictlyAscending(s)
    ensures |KeysOf(s)| == |s|
    decreases |s|
  {
    if s != [] {
      var t := s[1..];
      assert StrictlyAscending(t);
      AscendingKeyCount(t);
      KeysOfCons(s);
      HeadBelowTail(s);
      assert |KeysOf(s)| == |KeysOf(t)| + 1;
    }
  }

  lemma KeysOfCons(s: seq<(int, string)>)
    requires s != []
    ensures KeysOf(s) == {s[0].0} + KeysOf(s[1..])
  {
    assert s == [s[0]] + s[1..];
  }

  /** The first key of a strictly ascending list is below every key of the rest. */
  lemma HeadBelowTail(s: seq<(int, string)>)
    requires StrictlyAscending(s) && s != []
    ensures s[0].0 !in KeysOf(s[1..])
  {
    forall e | e in s[1..] ensures s[0].0 < e.0 {
      var j :| 0 <= j < |s[1..]| && s[1..][j] == e;
      assert s[j + 1] == e;
    }
  }

  /** The structural report checkBalance produces after putting 1, 2 and 3 into an empty map:
      the keys form a right-leaning chain, not the balanced tree of the comment at
      mymap.h:490-493. */
  lemma OneTwoThreeIsAChain()
    ensures
      var ns1 := Inserted([], Null, 1, "");
      var ns2 := Inserted(ns1, 0, 2, "");
      var ns3 := Inserted(ns2, 0, 3, "");
      Linked(ns3) && |ns3| == 3 && BalanceReport(ns3, 0) == [(1, 0, 1), (2, 0, 1), (3, 0, 0)]
  {
    var ns1 := Inserted([], Null, 1, "");
    assert ns1 == [Node(1, "", Null, Null, 0, 0, false)];
    var ns2 := Inserted(ns1, 0, 2, "");
    assert Locate(ns1, 0, 2) == Null;
    assert ns2 == [Node(1, "", Null, 1, 0, 1, false), Node(2, "", Null, Null, 0, 0, true)];
    var ns3 := Inserted(ns2, 0, 3, "");
    assert Locate(ns2, 0, 3) == Null by {
      assert Locate(ns2, 0, 3) == Locate(ns2, 1, 3);
    }
    var ext := ns2 + [NewNode(3, "")];
    assert Link(ext, 0, 2) == Link(ext, 1, 2);
    assert ns3 == [Node(1, "", Null, 1, 0, 1, false), Node(2, "", Null, 2, 0, 1, false),
                   Node(3, "", Null, Null, 0, 0, true)];
    assert BalanceReport(ns3, 2) == [(3, 0, 0)];
    assert BalanceReport(ns3, 1) == [(2, 0, 1), (3, 0, 0)];
  }

  // ---------------------------------------------------------------------------------------
  // The tree invariant, stated node by node over the arena and three pieces of ghost state:
  // `sub[i]`, the keys stored in the subtree of node i; `parent[c]`, the one node that links
  // to c; and `contents`, the abstract map.

  ghost function SubOf(sub: seq<set<int>>, c: int): set<int>
    requires c == Null || 0 <= c < |sub|
  {
    if c == Null then {} else sub[c]
  }

  /** Node i is a well-formed threaded BST node whose subtree holds sub[i] (plus `extra`, the
      key that an insertion in progress is adding below it). */
  ghost predicate NodeOk(ns: seq<Node>, sub: seq<set<int>>, parent: seq<int>,
                         contents: map<int, string>, i: int, extra: set<int>)
    requires 0 <= i < |ns| == |sub| == |parent|
  {
    var nd := ns[i];
    && LinkOk(ns, i, nd.left) && LinkOk(ns, i, nd.right)
    && (nd.isThreaded ==> nd.right == Null)
    && sub[i] == {nd.key} + SubOf(sub, nd.left) + SubOf(sub, nd.right) + extra
    && (forall x :: x in SubOf(sub, nd.left) ==> x < nd.key)
    && (forall x :: x in SubOf(sub, nd.right) ==> nd.key < x)
    && (nd.left != Null ==> parent[nd.left] == i)
    && (nd.right != Null ==> parent[nd.right] == i)
    && nd.key in contents && contents[nd.key] == nd.value
  }

  /** Every node but `skip` is well-formed. */
  ghost predicate TreeOkExcept(ns: seq<Node>, sub: seq<set<int>>, parent: seq<int>,
                               contents: map<int, string>, skip: int)
  {
    && |ns| == |sub| == |parent|
    && Linked(ns)
    && forall i :: 0 <= i < |ns| && i != skip ==> NodeOk(ns, sub, parent, contents, i, {})
  }

  ghost predicate DistinctKeys(ns: seq<Node>)
  {
    forall i, j :: 0 <= i < j < |ns| ==> ns[i].key != ns[j].key
  }

  /** The state in the middle of putNode's descent towards the slot for `key`: every node
      above cur already counts key in its subtree set; the last of them, `pend`, is cur's
      parent and counts it before cur does. */
  ghost predicate Descending(ns: seq<Node>, sub: seq<set<int>>, parent: seq<int>,
                             contents: map<int, string>, pend: int, cur: int, key: int)
  {
    && TreeOkExcept(ns, sub, parent, contents, pend)
    && 0 <= cur < |ns|
    && key !in sub[cur]
    && (pend == Null ==> cur == 0)
    && (pend != Null ==>
          && 0 <= pend < cur
          && NodeOk(ns, sub, parent, contents, pend, {key})
          && ((ns[pend].left == cur && key < ns[pend].key) ||
              (ns[pend].right == cur && ns[pend].key < key)))
  }

  /** Overwriting the value of an existing key keeps the tree well-formed. */
  lemma SetValueOk(ns: seq<Node>, sub: seq<set<int>>, parent: seq<int>,
                   contents: map<int, string>, j: int, v: string)
    requires TreeOkExcept(ns, sub, parent, contents, Null) && DistinctKeys(ns) && 0 <= j < |ns|
    ensures TreeOkExcept(ns[j := ns[j].(value := v)], sub, parent, contents[ns[j].key := v], Null)
    ensures DistinctKeys(ns[j := ns[j].(value := v)])
  {
    var ns' := ns[j := ns[j].(value := v)];
    var c' := contents[ns[j].key := v];
    forall i | 0 <= i < |ns| ensures NodeOk(ns', sub, parent, c', i, {}) {
      assert NodeOk(ns, sub, parent, contents, i, {});
      if i < j { assert ns[i].key != ns[j].key; }
      if j < i { assert ns[j].key != ns[i].key; }
    }
  }

  /** Appending the unlinked node for a new key keeps every node well-formed. */
  lemma AppendOk(ns: seq<Node>, sub: seq<set<int>>, parent: seq<int>,
                 contents: map<int, string>, key: int, v: string)
    requires TreeOkExcept(ns, sub, parent, contents, Null) && DistinctKeys(ns) && key !in contents
    ensures TreeOkExcept(ns + [NewNode(key, v)], sub + [{key}], parent + [Null], contents[key := v], Null)
    ensures DistinctKeys(ns + [NewNode(key, v)])
    ensures forall i :: 0 <= i < |ns| ==> ns[i].left != |ns| && ns[i].right != |ns|
  {
    var ns', sub', parent', c' := ns + [NewNode(key, v)], sub + [{key}], parent + [Null], contents[key := v];
    AppendLinked(ns, NewNode(key, v));
    forall i | 0 <= i < |ns'| ensures NodeOk(ns', sub', parent', c', i, {}) {
      if i < |ns| {
        assert NodeOk(ns, sub, parent, contents, i, {});
        assert ns'[i] == ns[i];
      }
    }
    forall i, j | 0 <= i < j < |ns'| ensures ns'[i].key != ns'[j].key {
      if j == |ns| { assert NodeOk(ns, sub, parent, contents, i, {}); }
    }
    forall i | 0 <= i < |ns| ensures ns[i].left != |ns| && ns[i].right != |ns| {
      assert NodeOk(ns, sub, parent, contents, i, {});
    }
  }

  /** One step of putNode's descent: cur counts key and becomes the pending node. */
  lemma DescendOk(ns: seq<Node>, sub: seq<set<int>>, parent: seq<int>,
                  contents: map<int, string>, pend: int, cur: int, key: int, next: int)
    requires Descending(ns, sub, parent, contents, pend, cur, key)
    requires next != Null
    requires (next == ns[cur].left && key < ns[cur].key) || (next == ns[cur].right && ns[cur].key < key)
    ensures Descending(ns, sub[cur := sub[cur] + {key}], parent, contents, cur, next, key)
  {
    var sub' := sub[cur := sub[cur] + {key}];
    assert NodeOk(ns, sub, parent, contents, cur, {});
    forall i | 0 <= i < |ns| && i != cur ensures NodeOk(ns, sub', parent, contents, i, {}) {
      if i == pend {
        assert NodeOk(ns, sub, parent, contents, pend, {key});
      } else {
        assert NodeOk(ns, sub, parent, contents, i, {});
        assert ns[i].left != cur && ns[i].right != cur;
      }
    }
  }

  /** Attaching node n below cur leaves every other node well-formed. */
  lemma UntouchedOk(ns: seq<Node>, sub: seq<set<int>>, parent: seq<int>,
                    contents: map<int, string>, pend: int, cur: int, key: int, n: int,
                    ns': seq<Node>, sub': seq<set<int>>, parent': seq<int>)
    requires Descending(ns, sub, parent, contents, pend, cur, key)
    requires n == |ns| - 1 && cur < n && ns[n].key == key
    requires forall i :: 0 <= i < n ==> ns[i].left != n && ns[i].right != n
    requires |ns'| == |ns| && forall i :: 0 <= i < |ns| && i != cur && i != n ==> ns'[i] == ns[i]
    requires sub' == sub[cur := sub[cur] + {key}] && parent' == parent[n := cur]
    ensures forall i :: 0 <= i < |ns| && i != cur && i != n ==> NodeOk(ns', sub', parent', contents, i, {})
  {
    forall i | 0 <= i < |ns| && i != cur && i != n
      ensures NodeOk(ns', sub', parent', contents, i, {})
    {
      var nd := ns[i];
      assert ns'[i] == nd;
      assert nd.left != n && nd.right != n;
      if i == pend {
        assert NodeOk(ns, sub, parent, contents, pend, {key});
        assert SubOf(sub', cur) == SubOf(sub, cur) + {key};
        assert NodeOk(ns, sub, parent, contents, cur, {});
        assert ns[cur].key in sub[cur];
        assert nd.left != nd.right;
        if nd.left == cur {
          assert SubOf(sub', nd.right) == SubOf(sub, nd.right);
          assert sub'[i] == {nd.key} + SubOf(sub', nd.left) + SubOf(sub', nd.right);
        } else {
          assert SubOf(sub', nd.left) == SubOf(sub, nd.left);
          assert sub'[i] == {nd.key} + SubOf(sub', nd.left) + SubOf(sub', nd.right);
        }
      } else {
        assert NodeOk(ns, sub, parent, contents, i, {});
        if pend != Null {
          assert NodeOk(ns, sub, parent, contents, pend, {key});
          assert parent[cur] == pend;
        }
        assert nd.left != cur && nd.right != cur;
        assert SubOf(sub', nd.left) == SubOf(sub, nd.left);
        assert SubOf(sub', nd.right) == SubOf(sub, nd.right);
      }
    }
  }

  /** The last step of putNode when the slot is on the left: node n becomes cur's left child. */
  lemma AttachLeftOk(ns: seq<Node>, sub: seq<set<int>>, parent: seq<int>,
                     contents: map<int, string>, pend: int, cur: int, key: int, n: int)
    requires Descending(ns, sub, parent, contents, pend, cur, key)
    requires n == |ns| - 1 && cur < n && ns[n].key == key && ns[n].left == Null && ns[n].right == Null
    requires forall i :: 0 <= i < n ==> ns[i].left != n && ns[i].right != n
    requires key < ns[cur].key && ns[cur].left == Null
    ensures TreeOkExcept(AttachLeft(ns, cur, n), sub[cur := sub[cur] + {key}], parent[n := cur], contents, Null)
  {
    var ns', sub', parent' := AttachLeft(ns, cur, n), sub[cur := sub[cur] + {key}], parent[n := cur];
    UntouchedOk(ns, sub, parent, contents, pend, cur, key, n, ns', sub', parent');
    assert NodeOk(ns, sub, parent, contents, cur, {});
    assert NodeOk(ns, sub, parent, contents, n, {});
    assert NodeOk(ns', sub', parent', contents, cur, {});
    assert NodeOk(ns', sub', parent', contents, n, {});
  }

  /** The last step of putNode when the slot is on the right: node n becomes cur's right
      child and cur stops being threaded. */
  lemma AttachRightOk(ns: seq<Node>, sub: seq<set<int>>, parent: seq<int>,
                      contents: map<int, string>, pend: int, cur: int, key: int, n: int)
    requires Descending(ns, sub, parent, contents, pend, cur, key)
    requires n == |ns| - 1 && cur < n && ns[n].key == key && ns[n].left == Null && ns[n].right == Null
    requires forall i :: 0 <= i < n ==> ns[i].left != n && ns[i].right != n
    requires ns[cur].key < key && ns[cur].right == Null
    ensures TreeOkExcept(AttachRight(ns, cur, n), sub[cur := sub[cur] + {key}], parent[n := cur], contents, Null)
  {
    var ns', sub', parent' := AttachRight(ns, cur, n), sub[cur := sub[cur] + {key}], parent[n := cur];
    UntouchedOk(ns, sub, parent, contents, pend, cur, key, n, ns', sub', parent');
    assert NodeOk(ns, sub, parent, contents, cur, {});
    assert NodeOk(ns, sub, parent, contents, n, {});
    assert NodeOk(ns', sub', parent', contents, cur, {});
    assert NodeOk(ns', sub', parent', contents, n, {});
  }

  /** The loop invariant of putNode: the walk has reached cur, linking n from cur gives the
      same arena as linking it from the root, and the root's key set `top` has gained key as
      soon as the walk has left the root. */
  ghost predicate Descent(ns: seq<Node>, sub: seq<set<int>>, parent: seq<int>, contents: map<int, string>,
                          pend: int, cur: int, key: int, n: int, top: set<int>)
  {
    && Descending(ns, sub, parent, contents, pend, cur, key)
    && 0 <= cur < n == |ns| - 1 && ns[n].key == key && ns[n].left == Null && ns[n].right == Null
    && (forall i :: 0 <= i < n ==> ns[i].left != n && ns[i].right != n)
    && Link(ns, cur, n) == Link(ns, 0, n)
    && sub[0] == (if pend == Null then top else top + {key})
  }

  lemma DescentStart(ns: seq<Node>, sub: seq<set<int>>, parent: seq<int>, contents: map<int, string>,
                     key: int, n: int)
    requires TreeOkExcept(ns, sub, parent, contents, Null)
    requires 0 < n == |ns| - 1 && ns[n].key == key && ns[n].left == Null && ns[n].right == Null
    requires forall i :: 0 <= i < n ==> ns[i].left != n && ns[i].right != n
    requires key !in sub[0]
    ensures Descent(ns, sub, parent, contents, Null, 0, key, n, sub[0])
  {
  }

  /** Going down one level, to the left or to the right of cur. */
  lemma DescentStep(ns: seq<Node>, sub: seq<set<int>>, parent: seq<int>, contents: map<int, string>,
                    pend: int, cur: int, key: int, n: int, top: set<int>)
    requires Descent(ns, sub, parent, contents, pend, cur, key, n, top)
    requires ns[cur].key > key ==> ns[cur].left != Null
    requires ns[cur].key <= key ==> ns[cur].right != Null
    ensures var next := if ns[cur].key > key then ns[cur].left
                        else if ns[cur].isThreaded then Null else ns[cur].right;
      Descent(ns, sub[cur := sub[cur] + {key}], parent, contents, cur, next, key, n, top)
  {
    assert NodeOk(ns, sub, parent, contents, cur, {});
    assert ns[cur].key != key;
    if ns[cur].key > key {
      DescendOk(ns, sub, parent, contents, pend, cur, key, ns[cur].left);
    } else {
      DescendOk(ns, sub, parent, contents, pend, cur, key, ns[cur].right);
    }
  }

  /** Hanging n in the empty slot below cur finishes putNode with a well-formed tree. */
  lemma DescentAttach(ns: seq<Node>, sub: seq<set<int>>, parent: seq<int>, contents: map<int, string>,
                      pend: int, cur: int, key: int, n: int, top: set<int>)
    requires Descent(ns, sub, parent, contents, pend, cur, key, n, top)
    requires ns[cur].key > key ==> ns[cur].left == Null
    requires ns[cur].key <= key ==> ns[cur].right == Null
    ensures var ns' := if ns[cur].key > key then AttachLeft(ns, cur, n) else AttachRight(ns, cur, n);
      var sub' := sub[cur := sub[cur] + {key}];
      && ns' == Link(ns, 0, n)
      && TreeOkExcept(ns', sub', parent[n := cur], contents, Null)
      && sub'[0] == top + {key}
      && |ns'| == |ns| && (forall i :: 0 <= i < |ns| ==> ns'[i].key == ns[i].key)
  {
    assert NodeOk(ns, sub, parent, contents, cur, {});
    assert ns[cur].key != key;
    if ns[cur].key > key {
      AttachLeftOk(ns, sub, parent, contents, pend, cur, key, n);
    } else {
      AttachRightOk(ns, sub, parent, contents, pend, cur, key, n);
    }
  }

  // ---------------------------------------------------------------------------------------
  // What the invariant buys: the searches and walks of mymap.h are correct.

  /** findCurrentKey's search from c stops at a node iff the key is in c's subtree, and that
      node holds the key's value. */
  lemma {:induction false} LocateFinds(ns: seq<Node>, sub: seq<set<int>>, parent: seq<int>,
                                       contents: map<int, string>, c: int, key: int)
    requires TreeOkExcept(ns, sub, parent, contents, Null) && (c == Null || 0 <= c < |ns|)
    ensures Locate(ns, c, key) != Null <==> key in SubOf(sub, c)
    ensures Locate(ns, c, key) != Null ==>
      key in contents && contents[key] == ns[Locate(ns, c, key)].value
    decreases Measure(ns, c)
  {
    if c != Null {
      var nd := ns[c];
      assert NodeOk(ns, sub, parent, contents, c, {});
      if nd.key < key {
        LocateFinds(ns, sub, parent, contents, if nd.isThreaded then Null else nd.right, key);
      } else if key < nd.key {
        LocateFinds(ns, sub, parent, contents, nd.left, key);
      }
      var r := Locate(ns, c, key);
      if r != Null {
        assert NodeOk(ns, sub, parent, contents, r, {});
      }
    }
  }

  /** Joining two ascending lists around a key that separates them keeps them ascending. */
  lemma JoinAscending(l: seq<(int, string)>, k: int, v: string, r: seq<(int, string)>)
    requires StrictlyAscending(l) && StrictlyAscending(r)
    requires forall e :: e in l ==> e.0 < k
    requires forall e :: e in r ==> k < e.0
    ensures StrictlyAscending(l + [(k, v)] + r)
    ensures KeysOf(l + [(k, v)] + r) == KeysOf(l) + {k} + KeysOf(r)
  {
    var s := l + [(k, v)] + r;
    forall a, b | 0 <= a < b < |s| ensures s[a].0 < s[b].0 {
      if b < |l| {
        assert s[a] == l[a] && s[b] == l[b];
      } else if a > |l| {
        assert s[a] == r[a - |l| - 1] && s[b] == r[b - |l| - 1];
      } else {
        if a < |l| { assert s[a] == l[a]; }
        if b > |l| { assert s[b] == r[b - |l| - 1]; }
      }
    }
    forall x | x in KeysOf(s) ensures x in KeysOf(l) + {k} + KeysOf(r) {
      var e :| e in s && e.0 == x;
    }
    forall x | x in KeysOf(l) + {k} + KeysOf(r) ensures x in KeysOf(s) {
      if x in KeysOf(l) {
        var e :| e in l && e.0 == x;
        assert e in s;
      } else if x in KeysOf(r) {
        var e :| e in r && e.0 == x;
        assert e in s;
      } else {
        assert (k, v) in s;
      }
    }
  }

  /** The in-order walk of inOrder from c lists exactly the keys of c's subtree, in strictly
      ascending order, each with its value in the map. */
  lemma {:induction false} WalkFacts(ns: seq<Node>, sub: seq<set<int>>, parent: seq<int>,
                                     contents: map<int, string>, c: int)
    requires TreeOkExcept(ns, sub, parent, contents, Null) && (c == Null || 0 <= c < |ns|)
    ensures KeysOf(InOrderEntries(ns, c)) == SubOf(sub, c)
    ensures StrictlyAscending(InOrderEntries(ns, c))
    ensures forall e :: e in InOrderEntries(ns, c) ==> e.0 in contents && contents[e.0] == e.1
    decreases Measure(ns, c)
  {
    if c != Null {
      var nd := ns[c];
      assert NodeOk(ns, sub, parent, contents, c, {});
      var rc := if nd.isThreaded then Null else nd.right;
      assert rc == nd.right;
      WalkFacts(ns, sub, parent, contents, nd.left);
      WalkFacts(ns, sub, parent, contents, rc);
      var l, r := InOrderEntries(ns, nd.left), InOrderEntries(ns, rc);
      assert InOrderEntries(ns, c) == l + [(nd.key, nd.value)] + r;
      forall e | e in l ensures e.0 < nd.key { assert e.0 in KeysOf(l); }
      forall e | e in r ensures nd.key < e.0 { assert e.0 in KeysOf(r); }
      JoinAscending(l, nd.key, nd.value, r);
    }
  }

  /** When the map's keys are exactly the keys under root, the walk from root lists exactly
      the map's entries. */
  lemma EntriesOfContents(ns: seq<Node>, sub: seq<set<int>>, parent: seq<int>,
                          contents: map<int, string>, root: int)
    requires TreeOkExcept(ns, sub, parent, contents, Null) && (root == Null || 0 <= root < |ns|)
    requires contents.Keys == SubOf(sub, root)
    ensures StrictlyAscending(InOrderEntries(ns, root))
    ensures forall e :: e in InOrderEntries(ns, root) <==> e.0 in contents && contents[e.0] == e.1
  {
    var v := InOrderEntries(ns, root);
    WalkFacts(ns, sub, parent, contents, root);
    forall e: (int, string) | e.0 in contents && contents[e.0] == e.1 ensures e in v {
      assert e.0 in KeysOf(v);
      var e' :| e' in v && e'.0 == e.0;
    }
  }
}
