/**
  The codec of util.h: the frequency table of a string, the encoding tree built with a
  min-priority queue, the encoding map, encode and decode.  Streams are sequences: the input
  file is a `seq<Char>`, the bit streams are `seq<Bit>`.  The frequency table (a hashmap in
  the source) is a `map<int, int>`, and its priority queue a `seq<Tree>`.
 */
module Huffman {
  import opened HuffmanTrees
  import opened Mymap

  // ---------------------------------------------------------------------------------------
  // buildFrequencyMap, string branch (util.h:77-89)

  /** freq counts every character of text and holds PSEUDO_EOF once. */
  ghost predicate IsFrequencyTable(freq: map<int, int>, text: seq<Char>)
  {
    && (forall c: int :: c in freq <==> c in text || c == PSEUDO_EOF)
    && (forall c: Char :: c in text ==> freq[c] == multiset(text)[c])
    && freq[PSEUDO_EOF] == 1
  }

  method BuildFrequencyMap(text: seq<Char>) returns (freq: map<int, int>)
    ensures IsFrequencyTable(freq, text)
  {
    freq := map[];
    for i := 0 to |text|
      invariant forall c: int :: c in freq <==> c in text[..i]
      invariant forall c: Char :: c in freq ==> freq[c] == multiset(text[..i])[c]
    {
      var c := text[i];
      assert text[..i + 1] == text[..i] + [c];
      if c in freq {
        freq := freq[c := freq[c] + 1];
      } else {
        freq := freq[c := 1];
      }
    }
    assert text[..|text|] == text;
    freq := freq[PSEUDO_EOF := 1];
  }

  // ---------------------------------------------------------------------------------------
  // The priority queue of buildEncodingTree (util.h:33-40, 96, 116-120)

  /** prioritize: p1 ranks below p2 when its count is larger, so the top is a least count. */
  predicate Prioritize(p1: Tree, p2: Tree)
    requires p1.HuffmanNode? && p2.HuffmanNode?
  {
    p1.count > p2.count
  }

  lemma {:induction false} MinimumExists(pq: seq<Tree>)
    requires pq != [] && forall t :: t in pq ==> t.HuffmanNode?
    ensures exists i :: 0 <= i < |pq| && forall j :: 0 <= j < |pq| ==> !Prioritize(pq[i], pq[j])
    decreases |pq|
  {
    if |pq| == 1 {
      assert forall j :: 0 <= j < |pq| ==> !Prioritize(pq[0], pq[j]);
    } else {
      var tail := pq[1..];
      MinimumExists(tail);
      var k :| 0 <= k < |tail| && forall j :: 0 <= j < |tail| ==> !Prioritize(tail[k], tail[j]);
      if pq[0].count <= tail[k].count {
        forall j | 0 <= j < |pq| ensures !Prioritize(pq[0], pq[j]) {
          if j > 0 { assert pq[j] == tail[j - 1]; }
        }
      } else {
        forall j | 0 <= j < |pq| ensures !Prioritize(pq[k + 1], pq[j]) {
          if j > 0 { assert pq[j] == tail[j - 1]; }
        }
      }
    }
  }

  /** pq.top() then pq.pop(): removes a node of least count.  Which one among equal counts is
      left open, as std::priority_queue leaves it. */
  method PopMin(pq: seq<Tree>) returns (top: Tree, rest: seq<Tree>, i: int)
    requires pq != [] && forall t :: t in pq ==> t.HuffmanNode?
    ensures 0 <= i < |pq| && top == pq[i] && rest == pq[..i] + pq[i + 1..]
    ensures forall t :: t in pq ==> !Prioritize(top, t)
  {
    MinimumExists(pq);
    i :| 0 <= i < |pq| && forall j :: 0 <= j < |pq| ==> !Prioritize(pq[i], pq[j]);
    top, rest := pq[i], pq[..i] + pq[i + 1..];
  }

  /** The node a merge step makes (util.h:121-126): NOT_A_CHAR, the summed count, the first
      popped node as the zero child and the second as the one child. */
  function Merge(left: Tree, right: Tree): (t: Tree)
    requires left.HuffmanNode? && right.HuffmanNode?
    ensures t.HuffmanNode? && !IsLeaf(t) && t.count == left.count + right.count
    ensures LeafBag(t) == LeafBag(left) + LeafBag(right)
    ensures WellFormed(left) && WellFormed(right) ==> WellFormed(t)
  {
    HuffmanNode(NOT_A_CHAR, left.count + right.count, left, right)
  }

  /** The leaf pairs of every tree in the queue. */
  function ForestBag(pq: seq<Tree>): multiset<(int, int)>
  {
    if pq == [] then multiset{} else LeafBag(pq[0]) + ForestBag(pq[1..])
  }

  function CountOf(t: Tree): int
  {
    if t.Nil? then 0 else t.count
  }

  /** The counts of the trees in the queue, added up. */
  function ForestCount(pq: seq<Tree>): int
  {
    if pq == [] then 0 else CountOf(pq[0]) + ForestCount(pq[1..])
  }

  lemma {:induction false} ForestConcat(a: seq<Tree>, b: seq<Tree>)
    ensures ForestBag(a + b) == ForestBag(a) + ForestBag(b)
    ensures ForestCount(a + b) == ForestCount(a) + ForestCount(b)
    decreases |a|
  {
    if a != [] {
      assert (a + b)[1..] == a[1..] + b;
      ForestConcat(a[1..], b);
    } else {
      assert a + b == b;
    }
  }

  /** Taking the tree at index i out of the queue takes its leaves and its count out. */
  lemma ForestRemove(pq: seq<Tree>, i: int)
    requires 0 <= i < |pq|
    ensures ForestBag(pq) == ForestBag(pq[..i] + pq[i + 1..]) + LeafBag(pq[i])
    ensures ForestCount(pq) == ForestCount(pq[..i] + pq[i + 1..]) + CountOf(pq[i])
  {
    var front, t, back := pq[..i], pq[i], pq[i + 1..];
    assert pq == front + ([t] + back);
    ForestConcat(front, [t] + back);
    ForestCons(t, back);
    ForestConcat(front, back);
  }

  lemma ForestCons(t: Tree, pq: seq<Tree>)
    ensures ForestBag([t] + pq) == LeafBag(t) + ForestBag(pq)
    ensures ForestCount([t] + pq) == CountOf(t) + ForestCount(pq)
  {
    assert ([t] + pq)[1..] == pq;
  }

  lemma ForestSnoc(pq: seq<Tree>, t: Tree)
    ensures ForestBag(pq + [t]) == ForestBag(pq) + LeafBag(t)
    ensures ForestCount(pq + [t]) == ForestCount(pq) + CountOf(t)
  {
    ForestConcat(pq, [t]);
    ForestCons(t, []);
    assert [t] + [] == [t];
  }

  // ---------------------------------------------------------------------------------------
  // The total of a frequency table

  /** A set other than {} has an element. */
  lemma NonEmpty(s: set<int>)
    ensures s != {} ==> exists x :: x in s
  {
    if forall x :: x !in s {
      assert s == {};
    }
  }

  ghost function PickKey(freq: map<int, int>): int
    requires freq != map[]
  {
    NonEmpty(freq.Keys);
    var k :| k in freq.Keys; k
  }

  /** The sum of all counts of the table. */
  ghost function TableTotal(freq: map<int, int>): int
    decreases |freq|
  {
    if freq == map[] then 0
    else
      var k := PickKey(freq);
      assert (freq - {k}).Keys == freq.Keys - {k};
      freq[k] + TableTotal(freq - {k})
  }

  /** The total does not depend on the key taken out first. */
  lemma {:induction false} TableTotalRemove(freq: map<int, int>, k: int)
    requires k in freq
    ensures TableTotal(freq) == freq[k] + TableTotal(freq - {k})
    decreases |freq|
  {
    var j := PickKey(freq);
    if j != k {
      assert (freq - {j}).Keys == freq.Keys - {j};
      assert (freq - {k}).Keys == freq.Keys - {k};
      TableTotalRemove(freq - {j}, k);
      TableTotalRemove(freq - {k}, j);
      assert freq - {j} - {k} == freq - {k} - {j};
    }
  }

  /** The part of freq on the keys in done. */
  function Restrict(freq: map<int, int>, done: set<int>): map<int, int>
  {
    map k | k in done && k in freq :: freq[k]
  }

  /** Loading one more key of the table into the queue. */
  lemma LoadStep(freq: map<int, int>, done: set<int>, k: int)
    requires k in freq && k !in done
    ensures multiset(Restrict(freq, done + {k}).Items)
      == multiset(Restrict(freq, done).Items) + multiset{(k, freq[k])}
    ensures TableTotal(Restrict(freq, done + {k})) == TableTotal(Restrict(freq, done)) + freq[k]
  {
    var r, r' := Restrict(freq, done), Restrict(freq, done + {k});
    assert r' - {k} == r;
    TableTotalRemove(r', k);
    forall p | p in r'.Items ensures p in r.Items || p == (k, freq[k]) {
      assert p.0 in r' && r'[p.0] == p.1;
    }
    forall p | p in r.Items || p == (k, freq[k]) ensures p in r'.Items {
      if p in r.Items {
        assert p.0 in r && r[p.0] == p.1;
      }
    }
    assert r'.Items == r.Items + {(k, freq[k])};
    assert (k, freq[k]) !in r.Items;
  }

  // ---------------------------------------------------------------------------------------
  // buildEncodingTree (util.h:95-130)

  /** The queue holds one leaf per key in done, and their counts. */
  ghost predicate Loaded(pq: seq<Tree>, freq: map<int, int>, done: set<int>)
  {
    && ForestBag(pq) == multiset(Restrict(freq, done).Items)
    && ForestCount(pq) == TableTotal(Restrict(freq, done))
  }

  lemma LoadedStep(pq: seq<Tree>, freq: map<int, int>, done: set<int>, key: int)
    requires Loaded(pq, freq, done) && key in freq && key !in done
    ensures Loaded(pq + [HuffmanNode(key, freq[key], Nil, Nil)], freq, done + {key})
  {
    LoadStep(freq, done, key);
    ForestSnoc(pq, HuffmanNode(key, freq[key], Nil, Nil));
  }

  /** One merge step keeps the leaves and the total count of the queue. */
  lemma MergeKeeps(pq: seq<Tree>, i: int, rest: seq<Tree>, j: int, rest': seq<Tree>)
    requires forall t :: t in pq ==> t.HuffmanNode?
    requires 0 <= i < |pq| && rest == pq[..i] + pq[i + 1..]
    requires 0 <= j < |rest| && rest' == rest[..j] + rest[j + 1..]
    ensures pq[i] in pq && rest[j] in pq && forall t :: t in rest' ==> t in pq
    ensures ForestBag(rest' + [Merge(pq[i], rest[j])]) == ForestBag(pq)
    ensures ForestCount(rest' + [Merge(pq[i], rest[j])]) == ForestCount(pq)
  {
    assert forall t :: t in rest ==> t in pq;
    ForestRemove(pq, i);
    ForestRemove(rest, j);
    ForestSnoc(rest', Merge(pq[i], rest[j]));
  }

  /** Every key of the table becomes a leaf in the queue, in an order left open (the order
      of the hashmap's keys()). */
  method LoadQueue(freq: map<int, int>) returns (pq: seq<Tree>)
    ensures |pq| == |freq|
    ensures forall t :: t in pq ==> IsLeaf(t) && t.character in freq
    ensures ForestBag(pq) == multiset(freq.Items)
    ensures ForestCount(pq) == TableTotal(freq)
  {
    pq := [];
    var keys := freq.Keys;
    ghost var done: set<int> := {};
    while keys != {}
      invariant keys !! done && keys + done == freq.Keys
      invariant |pq| + |keys| == |freq|
      invariant forall t :: t in pq ==> IsLeaf(t) && t.character in freq
      invariant Loaded(pq, freq, done)
      decreases keys
    {
      NonEmpty(keys);
      var key :| key in keys;
      var newNode := HuffmanNode(key, freq[key], Nil, Nil);
      LoadedStep(pq, freq, done, key);
      pq := pq + [newNode];
      keys := keys - {key};
      done := done + {key};
    }
    assert Restrict(freq, done) == freq;
  }

  /** The queue's nodes are trees (well formed when NOT_A_CHAR is no key) whose leaves are the
      table's entries and whose counts add up to the table's total. */
  ghost predicate QueueOk(pq: seq<Tree>, freq: map<int, int>)
  {
    && (forall t :: t in pq ==> t.HuffmanNode?)
    && (NOT_A_CHAR !in freq ==> forall t :: t in pq ==> WellFormed(t))
    && ForestBag(pq) == multiset(freq.Items)
    && ForestCount(pq) == TableTotal(freq)
  }

  lemma LoadedQueueOk(pq: seq<Tree>, freq: map<int, int>)
    requires forall t :: t in pq ==> IsLeaf(t) && t.character in freq
    requires ForestBag(pq) == multiset(freq.Items) && ForestCount(pq) == TableTotal(freq)
    ensures QueueOk(pq, freq)
  {
    forall t | t in pq && NOT_A_CHAR !in freq ensures WellFormed(t) {
      assert t.character != NOT_A_CHAR;
    }
  }

  /** A merge step keeps the queue's invariant. */
  lemma MergeQueueOk(pq: seq<Tree>, freq: map<int, int>, i: int, rest: seq<Tree>, j: int, rest': seq<Tree>)
    requires QueueOk(pq, freq)
    requires 0 <= i < |pq| && rest == pq[..i] + pq[i + 1..]
    requires 0 <= j < |rest| && rest' == rest[..j] + rest[j + 1..]
    ensures QueueOk(rest' + [Merge(pq[i], rest[j])], freq)
  {
    MergeKeeps(pq, i, rest, j, rest');
    var m := Merge(pq[i], rest[j]);
    assert forall t :: t in rest' + [m] ==> t in rest' || t == m;
  }

  /** The one node left in the queue is the whole tree. */
  lemma LastInQueue(pq: seq<Tree>, freq: map<int, int>, tree: Tree)
    requires QueueOk(pq, freq) && pq == [tree]
    ensures tree.HuffmanNode? && LeafBag(tree) == multiset(freq.Items) && tree.count == TableTotal(freq)
    ensures NOT_A_CHAR !in freq ==> WellFormed(tree)
  {
    assert pq == [] + [tree];
    ForestSnoc([], tree);
  }

  /** The tree buildEncodingTree returns: nullptr for fewer than two table entries, and
      otherwise a merged node whose leaves are exactly the table's entries and whose count is
      the table's total. */
  method BuildEncodingTree(freq: map<int, int>) returns (tree: Tree)
    ensures |freq| < 2 ==> tree == Nil
    ensures |freq| >= 2 ==>
      && tree.HuffmanNode? && !IsLeaf(tree)
      && LeafBag(tree) == multiset(freq.Items)
      && tree.count == TableTotal(freq)
    ensures |freq| >= 2 && NOT_A_CHAR !in freq ==> WellFormed(tree)
  {
    var pq := LoadQueue(freq);
    LoadedQueueOk(pq, freq);
    tree := Nil;
    while |pq| > 1
      invariant QueueOk(pq, freq)
      invariant tree == Nil ==> |pq| == |freq|
      invariant tree != Nil ==> |freq| >= 2 && |pq| >= 1 && pq[|pq| - 1] == tree && !IsLeaf(tree)
      decreases |pq|
    {
      var left, rest, i := PopMin(pq);
      assert forall t :: t in rest ==> t in pq;
      var right, rest', j := PopMin(rest);
      MergeQueueOk(pq, freq, i, rest, j, rest');
      tree := Merge(left, right);
      pq := rest' + [tree];
    }
    if |freq| >= 2 {
      LastInQueue(pq, freq, tree);
    }
  }

  // ---------------------------------------------------------------------------------------
  // buildEncodingMap (util.h:135-161)

  /** BEMHelper: puts the code of every node of the subtree into the map, the node itself
      first, then its zero subtree, then its one subtree. */
  method BEMHelper(encodingMap: MyMap, node: Tree, str: string)
    requires encodingMap.Valid()
    modifies encodingMap
    ensures encodingMap.Valid()
    ensures encodingMap.Contents == old(encodingMap.Contents) + Codes(node, str)
    decreases node
  {
    if node.Nil? {
      return;
    }
    ghost var c0 := encodingMap.Contents;
    if node.character != NOT_A_CHAR {
      encodingMap.Put(node.character, str);
    }
    ghost var own := if node.character != NOT_A_CHAR then map[node.character := str] else map[];
    assert encodingMap.Contents == c0 + own;
    ghost var c1 := encodingMap.Contents;
    BEMHelper(encodingMap, node.zero, str + "0");
    ghost var c2 := encodingMap.Contents;
    BEMHelper(encodingMap, node.one, str + "1");
    Union3(c0, own, Codes(node.zero, str + "0"), Codes(node.one, str + "1"));
  }

  /** Map union associates. */
  lemma Union3(m: map<int, string>, a: map<int, string>, b: map<int, string>, c: map<int, string>)
    ensures m + a + b + c == m + (a + b + c)
  {
  }

  method BuildEncodingMap(tree: Tree) returns (encodingMap: MyMap)
    ensures fresh(encodingMap) && encodingMap.Valid()
    ensures encodingMap.Contents == Codes(tree, "")
  {
    encodingMap := new MyMap();
    if tree.Nil? {
      return;
    }
    BEMHelper(encodingMap, tree, "");
  }

  // ---------------------------------------------------------------------------------------
  // encode (util.h:170-195)

  /** Appending a symbol appends its code. */
  lemma {:induction false} EncodingSnoc(codes: map<int, string>, s: seq<int>, c: int)
    ensures Encoding(codes, s + [c]) == Encoding(codes, s) + Lookup(codes, c)
    decreases |s|
  {
    if s == [] {
      assert [] + [c] == [c];
      assert Encoding(codes, [c]) == Lookup(codes, c) + Encoding(codes, []);
    } else {
      assert (s + [c])[1..] == s[1..] + [c];
      EncodingSnoc(codes, s[1..], c);
    }
  }

  /** A lookup through operator[] gives the code Lookup gives, and the map it leaves behind
      answers every lookup as before, with key now among its keys. */
  lemma IndexStep(m0: map<int, string>, c0: map<int, string>, c1: map<int, string>, key: int, v: string)
    requires SameLookups(c0, m0)
    requires key in c0 ==> v == c0[key] && c1 == c0
    requires key !in c0 ==> v == "" && c1 == c0[key := ""]
    ensures v == Lookup(m0, key)
    ensures SameLookups(c1, m0)
    ensures c1.Keys == c0.Keys + {key}
  {
    assert Lookup(c0, key) == Lookup(m0, key);
  }

  /** One operator[] lookup of encode, from map c0 to map c1: the code appended is the next
      symbol's code in the map encode started from. */
  lemma EncodeStep(m0: map<int, string>, c0: map<int, string>, c1: map<int, string>,
                   done: seq<int>, key: int, code: string)
    requires SameLookups(c0, m0) && Gained(c0, m0, done)
    requires key in c0 ==> code == c0[key] && c1 == c0
    requires key !in c0 ==> code == "" && c1 == c0[key := ""]
    ensures SameLookups(c1, m0) && Gained(c1, m0, done + [key])
    ensures Encoding(m0, done + [key]) == Encoding(m0, done) + code
  {
    IndexStep(m0, c0, c1, key, code);
    GainedStep(m0, c0, c1, done, key);
    EncodingSnoc(m0, done, key);
  }

  /** EncodeStep for the next symbol of input, stated on its prefixes. */
  lemma PrefixStep(m0: map<int, string>, c0: map<int, string>, c1: map<int, string>,
                   input: seq<int>, i: int, code: string)
    requires 0 <= i < |input|
    requires SameLookups(c0, m0) && Gained(c0, m0, input[..i])
    requires input[i] in c0 ==> code == c0[input[i]] && c1 == c0
    requires input[i] !in c0 ==> code == "" && c1 == c0[input[i] := ""]
    ensures SameLookups(c1, m0) && Gained(c1, m0, input[..i + 1])
    ensures Encoding(m0, input[..i + 1]) == Encoding(m0, input[..i]) + code
  {
    assert input[..i + 1] == input[..i] + [input[i]];
    EncodeStep(m0, c0, c1, input[..i], input[i], code);
  }

  /** Two code maps that give every symbol the same code. */
  ghost predicate SameLookups(a: map<int, string>, b: map<int, string>)
  {
    forall c :: Lookup(a, c) == Lookup(b, c)
  }

  /** The keys of c are those of m0 and the symbols of syms. */
  ghost predicate Gained(c: map<int, string>, m0: map<int, string>, syms: seq<int>)
  {
    forall x :: x in c <==> x in m0 || x in syms
  }

  lemma GainedStep(m0: map<int, string>, c0: map<int, string>, c1: map<int, string>, syms: seq<int>, key: int)
    requires Gained(c0, m0, syms) && c1.Keys == c0.Keys + {key}
    ensures Gained(c1, m0, syms + [key])
  {
  }

  /** encode: the codes of the input characters, then the code of PSEUDO_EOF, all looked up
      with operator[], which inserts the empty code for a symbol the map lacks.  With makeFile
      the same string is also written out as bits. */
  method Encode(input: seq<Char>, encodingMap: MyMap, makeFile: bool)
      returns (binary: string, size: int, output: seq<Bit>)
    requires encodingMap.Valid()
    modifies encodingMap
    ensures encodingMap.Valid()
    ensures binary == Encoding(old(encodingMap.Contents), input + [PSEUDO_EOF])
    ensures size == |binary|
    ensures output == if makeFile then BitsOf(binary) else []
    ensures SameLookups(encodingMap.Contents, old(encodingMap.Contents))
    ensures Gained(encodingMap.Contents, old(encodingMap.Contents), input + [PSEUDO_EOF])
  {
    ghost var m0 := encodingMap.Contents;
    binary := EncodeSymbols(input, encodingMap);
    ghost var c0 := encodingMap.Contents;
    var eofCode := encodingMap.Index(PSEUDO_EOF);
    EncodeStep(m0, c0, encodingMap.Contents, input, PSEUDO_EOF, eofCode);
    binary := binary + eofCode;
    size := |binary|;
    output := [];
    if makeFile {
      output := WriteBits(binary);
    }
  }

  /** The loop of encode over the input characters (util.h:175-177). */
  method EncodeSymbols(input: seq<Char>, encodingMap: MyMap) returns (binary: string)
    requires encodingMap.Valid()
    modifies encodingMap
    ensures encodingMap.Valid()
    ensures binary == Encoding(old(encodingMap.Contents), input)
    ensures SameLookups(encodingMap.Contents, old(encodingMap.Contents))
    ensures Gained(encodingMap.Contents, old(encodingMap.Contents), input)
  {
    ghost var m0 := encodingMap.Contents;
    binary := "";
    for i := 0 to |input|
      invariant encodingMap.Valid()
      invariant binary == Encoding(m0, input[..i])
      invariant SameLookups(encodingMap.Contents, m0)
      invariant Gained(encodingMap.Contents, m0, input[..i])
    {
      ghost var c0 := encodingMap.Contents;
      var code := encodingMap.Index(input[i]);
      PrefixStep(m0, c0, encodingMap.Contents, input, i, code);
      binary := binary + code;
    }
    assert input[..|input|] == input;
  }

  /** The bit writing of encode (util.h:187-193): '0' writes a 0 bit, any other character a 1. */
  method WriteBits(binary: string) returns (output: seq<Bit>)
    ensures |output| == |binary|
    ensures forall j :: 0 <= j < |binary| ==> (output[j] == 0 <==> binary[j] == '0')
    ensures output == BitsOf(binary)
  {
    output := [];
    for j := 0 to |binary|
      invariant output == BitsOf(binary[..j])
    {
      assert binary[..j + 1] == binary[..j] + [binary[j]];
      if binary[j] == '0' {
        output := output + [0];
      } else {
        output := output + [1];
      }
    }
    assert binary[..|binary|] == binary;
  }

  // ---------------------------------------------------------------------------------------
  // decode (util.h:202-229)

  /** decode: walks the tree bit by bit as Walk describes.  None is the null dereference the
      source performs when the bits step off the tree. */
  method Decode(input: seq<Bit>, encodingTree: Tree) returns (result: Option<seq<Char>>)
    ensures result == Walk(encodingTree, encodingTree, input, [])
  {
    var node := encodingTree;
    var acc: seq<Char> := [];
    var i := 0;
    while i < |input|
      invariant 0 <= i <= |input|
      invariant Walk(encodingTree, node, input[i..], acc) == Walk(encodingTree, encodingTree, input, [])
    {
      assert input[i..][1..] == input[i + 1..];
      var bit := input[i];
      i := i + 1;
      if node.Nil? {
        return None;
      }
      if bit == 1 {
        node := node.one;
      }
      if bit == 0 {
        node := node.zero;
      }
      if node.Nil? {
        return None;
      }
      if node.character != NOT_A_CHAR {
        if node.character == PSEUDO_EOF {
          break;
        }
        acc := acc + [ToChar(node.character)];
        node := encodingTree;
      }
    }
    return Some(acc);
  }

  // ---------------------------------------------------------------------------------------
  // compress followed by decompress (util.h:239-258, 271-290)

  /** A table with two different keys has at least two entries. */
  lemma TwoKeys(m: map<int, int>, a: int, b: int)
    requires a in m && b in m && a != b
    ensures |m| >= 2
  {
    var rest := m.Keys - {a, b};
    assert m.Keys == rest + {a, b};
    assert |m.Keys| == |rest| + |{a, b}|;
  }

  /** The frequency table, the tree, the code map and the encoded bits of compress, fed to
      decode with the same tree: the text comes back. */
  method CompressDecompress(text: seq<Char>) returns (binary: string, decoded: Option<seq<Char>>)
    ensures decoded == Some(text)
  {
    var freq := BuildFrequencyMap(text);
    var tree := BuildEncodingTree(freq);
    var encodingMap := BuildEncodingMap(tree);
    var size, bits;
    binary, size, bits := Encode(text, encodingMap, true);
    decoded := Decode(bits, tree);
    RoundTrip(text, freq, tree, bits);
  }

  /** The tree built from the frequency table of a non-empty text is well formed, has no
      character twice, and its leaves are the table's keys. */
  lemma TableTree(text: seq<Char>, freq: map<int, int>, tree: Tree)
    requires IsFrequencyTable(freq, text) && |freq| >= 2
    requires LeafBag(tree) == multiset(freq.Items)
    requires NOT_A_CHAR !in freq ==> WellFormed(tree)
    ensures WellFormed(tree) && DistinctLeaves(tree)
    ensures Chars(tree) == freq.Keys
  {
    assert NOT_A_CHAR !in freq;
    BagDistinct(tree, freq);
    CharsOfBag(tree);
    forall x ensures x in Chars(tree) <==> x in freq {
      if x in freq {
        assert (x, freq[x]) in LeafBag(tree);
      }
      if x in Chars(tree) {
        var p :| p in LeafBag(tree) && p.0 == x;
        assert p in freq.Items;
      }
    }
  }

  /** Decoding, with the tree compress built, the bits compress wrote gives back the text. */
  lemma RoundTrip(text: seq<Char>, freq: map<int, int>, tree: Tree, bits: seq<Bit>)
    requires IsFrequencyTable(freq, text)
    requires |freq| < 2 ==> tree == Nil
    requires |freq| >= 2 ==> tree.HuffmanNode? && !IsLeaf(tree) && LeafBag(tree) == multiset(freq.Items)
    requires |freq| >= 2 && NOT_A_CHAR !in freq ==> WellFormed(tree)
    requires bits == BitsOf(Encoding(Codes(tree, ""), text + [PSEUDO_EOF]))
    ensures Walk(tree, tree, bits, []) == Some(text)
  {
    if text != [] {
      TwoKeys(freq, text[0], PSEUDO_EOF);
    }
    if |freq| >= 2 {
      TableTree(text, freq, tree);
      WalkEncoding(tree, text, [], []);
      assert bits + [] == bits;
      assert [] + text == text;
    } else {
      assert text == [];
      assert Encoding(map[], [PSEUDO_EOF]) == "";
    }
  }
}
