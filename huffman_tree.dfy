/**
  The Huffman trees of util.h and the pure facts about them: the shape buildEncodingTree
  produces, the code map BEMHelper derives from it, and the walk decode performs.  The
  procedures themselves are in the Huffman module.
 */
module HuffmanTrees {

  /** The end-of-input symbol; it is the key 256 of util.h:89 and util.h:179. */
  const PSEUDO_EOF: int := 256
  /** The character of an internal node, distinct from every symbol. */
  const NOT_A_CHAR: int := 257

  /** A C++ `char` (signed) converted to int. */
  type Char = c: int | -128 <= c < 128

  type Bit = b: int | 0 <= b < 2

  datatype Option<T> = None | Some(value: T)

  /** A HuffmanNode (util.h:23-28); Nil is the null pointer. */
  datatype Tree = Nil | HuffmanNode(character: int, count: int, zero: Tree, one: Tree)

  predicate IsLeaf(t: Tree)
  {
    t.HuffmanNode? && t.zero.Nil? && t.one.Nil?
  }

  /** The shape buildEncodingTree builds: a leaf holds a symbol, an internal node holds
      NOT_A_CHAR, two subtrees and the sum of their counts (util.h:103-107, 121-126). */
  predicate WellFormed(t: Tree)
  {
    match t
    case Nil => false
    case HuffmanNode(c, n, z, o) =>
      if z.Nil? && o.Nil? then c != NOT_A_CHAR
      else c == NOT_A_CHAR && WellFormed(z) && WellFormed(o) && n == z.count + o.count
  }

  /** The (character, count) pairs at the leaves. */
  function LeafBag(t: Tree): multiset<(int, int)>
  {
    match t
    case Nil => multiset{}
    case HuffmanNode(c, n, z, o) =>
      if z.Nil? && o.Nil? then multiset{(c, n)} else LeafBag(z) + LeafBag(o)
  }

  /** The characters at the leaves. */
  function Chars(t: Tree): set<int>
  {
    match t
    case Nil => {}
    case HuffmanNode(c, _, z, o) => if z.Nil? && o.Nil? then {c} else Chars(z) + Chars(o)
  }

  /** No character sits at two leaves. */
  predicate DistinctLeaves(t: Tree)
  {
    match t
    case Nil => true
    case HuffmanNode(_, _, z, o) => Chars(z) !! Chars(o) && DistinctLeaves(z) && DistinctLeaves(o)
  }

  /** The characters at the leaves are the first components of the leaf pairs. */
  lemma {:induction false} CharsOfBag(t: Tree)
    ensures Chars(t) == set p | p in LeafBag(t) :: p.0
  {
    match t
    case Nil =>
    case HuffmanNode(c, n, z, o) =>
      if z.Nil? && o.Nil? {
        assert (c, n) in LeafBag(t);
        assert forall p :: p in LeafBag(t) ==> p == (c, n);
      } else {
        CharsOfBag(z);
        CharsOfBag(o);
        forall x ensures x in Chars(t) <==> exists p :: p in LeafBag(t) && p.0 == x {
          if x in Chars(z) {
            var p :| p in LeafBag(z) && p.0 == x;
            assert p in LeafBag(t);
          }
          if x in Chars(o) {
            var p :| p in LeafBag(o) && p.0 == x;
            assert p in LeafBag(t);
          }
        }
      }
  }

  /** A tree whose leaf pairs are entries of a table, each taken at most once, holds no
      character at two leaves. */
  lemma {:induction false} BagDistinct(t: Tree, table: map<int, int>)
    requires LeafBag(t) <= multiset(table.Items)
    ensures DistinctLeaves(t)
  {
    match t
    case Nil =>
    case HuffmanNode(c, n, z, o) =>
      if z.Nil? && o.Nil? {
        assert Chars(z) == {} && Chars(o) == {};
      } else {
        assert LeafBag(t) == LeafBag(z) + LeafBag(o);
        BagDistinct(z, table);
        BagDistinct(o, table);
        CharsOfBag(z);
        CharsOfBag(o);
        forall x | x in Chars(z) ensures x !in Chars(o) {
          var p :| p in LeafBag(z) && p.0 == x;
          forall q | q in LeafBag(o) ensures q.0 != x {
            assert LeafBag(z)[p] + LeafBag(o)[p] <= multiset(table.Items)[p] <= 1;
            assert q != p;
            assert p in table.Items && q in table.Items;
            assert p.1 == table[p.0] && q.1 == table[q.0];
          }
        }
      }
  }

  /** The code map BEMHelper puts into the encoding map (util.h:135-147): every node that is
      not NOT_A_CHAR maps its character to the path from the start, '0' for the zero child and
      '1' for the one child.  Later puts overwrite earlier ones, hence the right-biased `+`. */
  function Codes(t: Tree, prefix: string): map<int, string>
  {
    match t
    case Nil => map[]
    case HuffmanNode(c, _, z, o) =>
      (if c != NOT_A_CHAR then map[c := prefix] else map[])
      + Codes(z, prefix + "0") + Codes(o, prefix + "1")
  }

  /** The root-to-leaf path of character c. */
  function Path(t: Tree, c: int): string
    requires c in Chars(t)
  {
    if IsLeaf(t) then ""
    else if c in Chars(t.zero) then "0" + Path(t.zero, c)
    else "1" + Path(t.one, c)
  }

  /** The bits encode writes for a code string (util.h:184-192): '0' is 0, anything else 1. */
  function BitsOf(s: string): (bits: seq<Bit>)
    ensures |bits| == |s|
    ensures forall i :: 0 <= i < |s| ==> (bits[i] == 0 <==> s[i] == '0')
  {
    seq(|s|, i requires 0 <= i < |s| => if s[i] == '0' then 0 else 1)
  }

  /** The value an int takes when stored in a (signed, two's complement) char. */
  function ToChar(c: int): (r: Char)
    ensures -128 <= c < 128 ==> r == c
  {
    (c + 128) % 256 - 128
  }

  /** The code of symbol c, or the empty string operator[] inserts for a missing one. */
  function Lookup(codes: map<int, string>, c: int): string
  {
    if c in codes then codes[c] else ""
  }

  /** The concatenated codes of syms. */
  function Encoding(codes: map<int, string>, syms: seq<int>): string
  {
    if syms == [] then "" else Lookup(codes, syms[0]) + Encoding(codes, syms[1..])
  }

  /** decode's loop (util.h:202-229) from tree node `node`, with `acc` decoded so far: each bit
      moves to the one or zero child; a leaf other than PSEUDO_EOF emits its character and
      goes back to the root; PSEUDO_EOF stops; running out of bits returns what was decoded.
      None stands for the null dereference the source performs when it steps off the tree. */
  function Walk(root: Tree, node: Tree, bits: seq<Bit>, acc: seq<Char>): Option<seq<Char>>
    decreases |bits|
  {
    if bits == [] then Some(acc)
    else if node.Nil? then None
    else
      var next := if bits[0] == 1 then node.one else node.zero;
      if next.Nil? then None
      else if next.character == NOT_A_CHAR then Walk(root, next, bits[1..], acc)
      else if next.character == PSEUDO_EOF then Some(acc)
      else Walk(root, root, bits[1..], acc + [ToChar(next.character)])
  }

  // ---------------------------------------------------------------------------------------
  // The code map is the set of root-to-leaf paths, and it is prefix-free.

  lemma BitsOfAppend(a: string, b: string)
    ensures BitsOf(a + b) == BitsOf(a) + BitsOf(b)
  {
  }

  /** On a well-formed tree with distinct leaves, BEMHelper started with `prefix` maps exactly
      the leaf characters, each to prefix followed by its path. */
  lemma {:induction false} CodesArePaths(t: Tree, prefix: string)
    requires WellFormed(t) && DistinctLeaves(t)
    ensures Codes(t, prefix).Keys == Chars(t)
    ensures forall c :: c in Chars(t) ==> Codes(t, prefix)[c] == prefix + Path(t, c)
  {
    if IsLeaf(t) {
      LeafCodes(t, prefix);
    } else {
      var z, o := t.zero, t.one;
      CodesArePaths(z, prefix + "0");
      CodesArePaths(o, prefix + "1");
      InternalCodes(t, prefix);
      var mz, mo := Codes(z, prefix + "0"), Codes(o, prefix + "1");
      forall c | c in Chars(t) ensures Codes(t, prefix)[c] == prefix + Path(t, c) {
        ChildPath(t, prefix, c, mz, mo);
      }
    }
  }

  lemma LeafCodes(t: Tree, prefix: string)
    requires WellFormed(t) && IsLeaf(t)
    ensures Codes(t, prefix) == map[t.character := prefix] && Path(t, t.character) == ""
  {
    assert Codes(t, prefix) == map[t.character := prefix] + map[] + map[];
  }

  lemma InternalCodes(t: Tree, prefix: string)
    requires t.HuffmanNode? && t.character == NOT_A_CHAR
    ensures Codes(t, prefix) == Codes(t.zero, prefix + "0") + Codes(t.one, prefix + "1")
  {
    var mz, mo := Codes(t.zero, prefix + "0"), Codes(t.one, prefix + "1");
    assert Codes(t, prefix) == map[] + mz + mo;
    assert map[] + mz == mz;
  }

  /** The path of c below an internal node goes through the child holding c, so the code
      the union of the children's code maps gives c is prefix + Path(t, c). */
  lemma ChildPath(t: Tree, prefix: string, c: int, mz: map<int, string>, mo: map<int, string>)
    requires t.HuffmanNode? && !IsLeaf(t) && c in Chars(t) && Chars(t.zero) !! Chars(t.one)
    requires mz.Keys == Chars(t.zero) && mo.Keys == Chars(t.one)
    requires c in Chars(t.zero) ==> mz[c] == prefix + "0" + Path(t.zero, c)
    requires c in Chars(t.one) ==> mo[c] == prefix + "1" + Path(t.one, c)
    ensures (mz + mo)[c] == prefix + Path(t, c)
  {
    if c in Chars(t.zero) {
      assert c !in mo;
      assert (mz + mo)[c] == mz[c];
      assert Path(t, c) == "0" + Path(t.zero, c);
      assert prefix + "0" + Path(t.zero, c) == prefix + ("0" + Path(t.zero, c));
    } else {
      assert c in mo;
      assert (mz + mo)[c] == mo[c];
      assert Path(t, c) == "1" + Path(t.one, c);
      assert prefix + "1" + Path(t.one, c) == prefix + ("1" + Path(t.one, c));
    }
  }

  /** No path is a prefix of another, and below an internal node every path is non-empty. */
  lemma {:induction false} PathsPrefixFree(t: Tree, a: int, b: int)
    requires WellFormed(t) && DistinctLeaves(t) && a in Chars(t) && b in Chars(t) && a != b
    ensures !(Path(t, a) <= Path(t, b))
  {
    if !IsLeaf(t) {
      var z, o := t.zero, t.one;
      if a in Chars(z) && b in Chars(z) {
        PathsPrefixFree(z, a, b);
        ConsPrefix('0', Path(z, a), Path(z, b));
      } else if a in Chars(o) && b in Chars(o) {
        assert a !in Chars(z) && b !in Chars(z);
        PathsPrefixFree(o, a, b);
        ConsPrefix('1', Path(o, a), Path(o, b));
      } else {
        assert |Path(t, a)| > 0 && |Path(t, b)| > 0 && Path(t, a)[0] != Path(t, b)[0];
      }
    }
  }

  lemma ConsPrefix(ch: char, x: string, y: string)
    ensures ([ch] + x <= [ch] + y) <==> (x <= y)
  {
    if [ch] + x <= [ch] + y {
      assert x == ([ch] + x)[1..] && ([ch] + y)[1..] == y;
    }
  }

  /** The code map of a tree with at least two leaves is prefix-free and has no empty code
      (util.h:141-146). */
  lemma CodesPrefixFree(t: Tree)
    requires WellFormed(t) && !IsLeaf(t) && DistinctLeaves(t)
    ensures Codes(t, "").Keys == Chars(t)
    ensures forall c :: c in Codes(t, "") ==> Codes(t, "")[c] != ""
    ensures forall a, b :: a in Codes(t, "") && b in Codes(t, "") && a != b ==>
      !(Codes(t, "")[a] <= Codes(t, "")[b])
  {
    CodesArePaths(t, "");
    forall c | c in Codes(t, "") ensures Codes(t, "")[c] != "" {
      assert Codes(t, "")[c] == "" + Path(t, c);
    }
    forall a, b | a in Codes(t, "") && b in Codes(t, "") && a != b
      ensures !(Codes(t, "")[a] <= Codes(t, "")[b])
    {
      assert Codes(t, "")[a] == Path(t, a) && Codes(t, "")[b] == Path(t, b);
      PathsPrefixFree(t, a, b);
    }
  }

  // ---------------------------------------------------------------------------------------
  // Decoding the code of a character reaches that character's leaf.

  /** Reading the path of c from internal node t ends at c's leaf: PSEUDO_EOF stops the walk,
      any other character is emitted and the walk restarts at the root. */
  lemma {:induction false} WalkPath(root: Tree, t: Tree, c: int, rest: seq<Bit>, acc: seq<Char>)
    requires WellFormed(t) && !IsLeaf(t) && DistinctLeaves(t) && c in Chars(t)
    ensures Walk(root, t, BitsOf(Path(t, c)) + rest, acc)
      == if c == PSEUDO_EOF then Some(acc) else Walk(root, root, rest, acc + [ToChar(c)])
  {
    var z, o := t.zero, t.one;
    var child, b := if c in Chars(z) then z else o, if c in Chars(z) then "0" else "1";
    assert Path(t, c) == b + Path(child, c);
    BitsOfAppend(b, Path(child, c));
    var bits := BitsOf(Path(t, c)) + rest;
    assert bits[1..] == BitsOf(Path(child, c)) + rest;
    if !IsLeaf(child) {
      WalkPath(root, child, c, rest, acc);
    }
  }

  /** The encoding of c followed by more symbols starts with the path of c. */
  lemma EncodingCons(root: Tree, c: int, tail: seq<int>, rest: seq<Bit>)
    requires WellFormed(root) && DistinctLeaves(root) && c in Chars(root)
    ensures BitsOf(Encoding(Codes(root, ""), [c] + tail)) + rest
      == BitsOf(Path(root, c)) + (BitsOf(Encoding(Codes(root, ""), tail)) + rest)
  {
    var codes := Codes(root, "");
    CodesArePaths(root, "");
    assert codes[c] == "" + Path(root, c) == Path(root, c);
    EncodingHead(codes, c, tail);
    BitsOfAppend(Path(root, c), Encoding(codes, tail));
  }

  lemma EncodingHead(codes: map<int, string>, c: int, tail: seq<int>)
    ensures Encoding(codes, [c] + tail) == Lookup(codes, c) + Encoding(codes, tail)
  {
    assert ([c] + tail)[1..] == tail;
  }

  /** Decoding the encoding of s followed by PSEUDO_EOF gives back s, whatever bits follow. */
  lemma {:induction false} WalkEncoding(root: Tree, s: seq<Char>, rest: seq<Bit>, acc: seq<Char>)
    requires WellFormed(root) && !IsLeaf(root) && DistinctLeaves(root)
    requires PSEUDO_EOF in Chars(root) && forall c :: c in s ==> c in Chars(root)
    ensures Walk(root, root, BitsOf(Encoding(Codes(root, ""), s + [PSEUDO_EOF])) + rest, acc) == Some(acc + s)
    decreases |s|
  {
    if s == [] {
      assert s + [PSEUDO_EOF] == [PSEUDO_EOF] + [];
      EncodingCons(root, PSEUDO_EOF, [], rest);
      WalkPath(root, root, PSEUDO_EOF, BitsOf(Encoding(Codes(root, ""), [])) + rest, acc);
      assert acc + s == acc;
    } else {
      var c, tail := s[0], s[1..] + [PSEUDO_EOF];
      assert s + [PSEUDO_EOF] == [c] + tail;
      EncodingCons(root, c, tail, rest);
      WalkPath(root, root, c, BitsOf(Encoding(Codes(root, ""), tail)) + rest, acc);
      WalkEncoding(root, s[1..], rest, acc + [c]);
      assert acc + [c] + s[1..] == acc + s;
    }
  }
}
