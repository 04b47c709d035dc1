/** The codes of the Huffman coder: the code table read off the tree by an
    explicit-stack walk, the packing of code bits into bytes most
    significant bit first, and the greedy decoding loop of `decompress`,
    with the lemmas that tie them together. Base64 and the text layout of
    the header are not part of this model; the four names written for
    whitespace characters are. */
module HuffmanCode {
  import opened HuffmanTree

  type Byte = bv8

  // ---------------------------------------------------------------------
  // The code table

  /** The root-to-leaf path of every leaf below n, `0` for a left and `1`
      for a right step, after `prefix`. The walk finishes the right subtree
      before the left one, so a character on both sides keeps its left
      path. */
  function Codes(n: Node, prefix: string): map<char, string>
    requires Full(n)
    decreases n
  {
    if n.value.Some? then map[n.value.value := prefix]
    else Codes(n.right.value, prefix + "1") + Codes(n.left.value, prefix + "0")
  }

  /** No code of the table is a prefix of another character's code. */
  predicate PrefixFree(table: map<char, string>)
  {
    forall a, b :: a in table && b in table && a != b ==> !(table[a] <= table[b])
  }

  predicate IsBit(c: char)
  {
    c == '0' || c == '1'
  }

  /** Codes are made of the characters `0` and `1` only. */
  predicate Binary(w: string)
  {
    forall k :: 0 <= k < |w| ==> IsBit(w[k])
  }

  /** The characters of the leaves of a tree. */
  function LeafChars(n: Node): set<char>
  {
    set p | p in LeafList(n) :: p.0
  }

  /** Every leaf character gets a code, made of 0s and 1s, that starts with
      the prefix and, below an internal node, is longer than it. */
  lemma CodesShape(n: Node, prefix: string)
    requires Full(n)
    ensures Codes(n, prefix).Keys == LeafChars(n)
    ensures forall c :: c in Codes(n, prefix) ==> prefix <= Codes(n, prefix)[c]
    ensures forall c :: c in Codes(n, prefix) ==> Binary(Codes(n, prefix)[c][|prefix|..])
    ensures n.value.None? ==> forall c :: c in Codes(n, prefix) ==> |Codes(n, prefix)[c]| > |prefix|
  {
    CodesKeys(n, prefix);
    CodesExtend(n, prefix);
  }

  lemma {:induction false} CodesKeys(n: Node, prefix: string)
    requires Full(n)
    ensures Codes(n, prefix).Keys == LeafChars(n)
    decreases n
  {
    if n.value.None? {
      var l, r := n.left.value, n.right.value;
      CodesKeys(l, prefix + "0");
      CodesKeys(r, prefix + "1");
      assert LeafList(n) == LeafList(l) + LeafList(r);
    }
  }

  lemma {:induction false} CodesExtend(n: Node, prefix: string)
    requires Full(n)
    ensures forall c :: c in Codes(n, prefix) ==>
              prefix <= Codes(n, prefix)[c] && Binary(Codes(n, prefix)[c][|prefix|..]) &&
              (n.value.None? ==> |Codes(n, prefix)[c]| > |prefix|)
    decreases n
  {
    if n.value.None? {
      var l, r := n.left.value, n.right.value;
      CodesExtend(l, prefix + "0");
      CodesExtend(r, prefix + "1");
      var lc, rc := Codes(l, prefix + "0"), Codes(r, prefix + "1");
      forall c | c in lc
        ensures prefix <= lc[c] && |lc[c]| > |prefix| && Binary(lc[c][|prefix|..])
      {
        OneMoreBit(prefix, '0', lc[c]);
      }
      forall c | c in rc
        ensures prefix <= rc[c] && |rc[c]| > |prefix| && Binary(rc[c][|prefix|..])
      {
        OneMoreBit(prefix, '1', rc[c]);
      }
    }
  }

  /** A code that extends a prefix by one bit and then some bits extends the
      prefix by bits. */
  lemma OneMoreBit(prefix: string, bit: char, w: string)
    requires bit == '0' || bit == '1'
    requires prefix + [bit] <= w && Binary(w[|prefix| + 1..])
    ensures prefix <= w && |w| > |prefix| && Binary(w[|prefix|..])
  {
    assert w[|prefix|..] == [bit] + w[|prefix| + 1..];
  }

  /** The codes of a full tree are prefix-free. */
  lemma {:induction false} CodesPrefixFree(n: Node, prefix: string)
    requires Full(n)
    ensures PrefixFree(Codes(n, prefix))
    decreases n
  {
    if n.value.None? {
      var l, r := n.left.value, n.right.value;
      var lc, rc := Codes(l, prefix + "0"), Codes(r, prefix + "1");
      CodesPrefixFree(l, prefix + "0");
      CodesPrefixFree(r, prefix + "1");
      CodesShape(l, prefix + "0");
      CodesShape(r, prefix + "1");
      var m := Codes(n, prefix);
      forall a, b | a in m && b in m && a != b
        ensures !(m[a] <= m[b])
      {
        if a in lc && b !in lc {
          Diverge(prefix, m[a], m[b], '0', '1');
        } else if a !in lc && b in lc {
          Diverge(prefix, m[a], m[b], '1', '0');
        }
      }
    }
  }

  /** Words that go different ways after a common prefix are not prefixes
      of each other. */
  lemma Diverge(prefix: string, u: string, v: string, x: char, y: char)
    requires prefix + [x] <= u && prefix + [y] <= v && x != y
    ensures !(u <= v)
  {
    assert u[|prefix|] == x && v[|prefix|] == y;
  }

  /** A tree that is a single leaf gives its character the empty code. */
  lemma SingleLeafCode(c: char, frequency: nat)
    ensures Codes(NewLeaf(c, frequency), "") == map[c := ""]
  {
  }

  /** The opendsa test of `build_encoding_table`: whatever tree a greedy
      run builds from the test's table gets the test's eight codes. */
  lemma OpendsaCodes(bags: seq<multiset<Node>>, merges: seq<(Node, Node)>, root: Node)
    requires GreedyRun(bags, merges) && bags[0] == LeafBag(OpendsaTable) && bags[|bags| - 1] == multiset{root}
    ensures Full(root)
    ensures var t := Codes(root, "");
      t.Keys == OpendsaTable.Keys &&
      t['c'] == "1110" && t['d'] == "101" && t['e'] == "0" && t['k'] == "111101" &&
      t['l'] == "110" && t['m'] == "11111" && t['u'] == "100" && t['z'] == "111100"
  {
    OpendsaGreedy(bags, merges, root);
    OpendsaRootCodes(root);
  }

  /** Whether character c sits on a leaf of n. */
  predicate Holds(n: Node, c: char)
    decreases n
  {
    match n.value
    case Some(v) => v == c
    case None =>
      (n.left.Some? && Holds(n.left.value, c)) || (n.right.Some? && Holds(n.right.value, c))
  }

  lemma {:induction false} HoldsLeafChars(n: Node, c: char)
    ensures Holds(n, c) <==> c in LeafChars(n)
    decreases n
  {
    if n.value.None? {
      var l: seq<(char, nat)> := if n.left.Some? then LeafList(n.left.value) else [];
      var r: seq<(char, nat)> := if n.right.Some? then LeafList(n.right.value) else [];
      assert LeafList(n) == l + r;
      if n.left.Some? { HoldsLeafChars(n.left.value, c); }
      if n.right.Some? { HoldsLeafChars(n.right.value, c); }
      if Holds(n, c) {
        var p: (char, nat) :| p in l + r && p.0 == c;
        assert p.0 in LeafChars(n);
      }
      if c in LeafChars(n) {
        var p: (char, nat) :| p in l + r && p.0 == c;
        if p in l {
          assert c in LeafChars(n.left.value);
        } else {
          assert c in LeafChars(n.right.value);
        }
      }
    } else {
      var leaf := (n.value.value, n.frequency);
      assert LeafList(n) == [leaf];
      assert leaf.0 in LeafChars(n);
    }
  }

  /** Following the bits of w from position i leads from n to the leaf of
      c, and no step to the right passes by a left subtree that also
      holds c (its code would win). */
  predicate Reaches(n: Node, w: string, i: nat, c: char)
    requires i <= |w|
    decreases |w| - i
  {
    if i == |w| then n.value == Some(c)
    else if w[i] == '0' then
      n.value.None? && n.left.Some? && Reaches(n.left.value, w, i + 1, c)
    else
      w[i] == '1' && n.value.None? && n.right.Some? && n.left.Some? &&
      !Holds(n.left.value, c) && Reaches(n.right.value, w, i + 1, c)
  }

  /** The code of a character is the path to its leaf. */
  lemma {:induction false} CodesReach(n: Node, prefix: string, w: string, i: nat, c: char)
    requires Full(n) && i <= |w| && Reaches(n, w, i, c)
    ensures c in Codes(n, prefix) && Codes(n, prefix)[c] == prefix + w[i..]
    decreases |w| - i
  {
    if i < |w| {
      var bit := w[i];
      var next := prefix + [bit];
      assert w[i..] == [bit] + w[i + 1..];
      if bit == '0' {
        CodesReach(n.left.value, prefix + "0", w, i + 1, c);
        assert next == prefix + "0";
      } else {
        CodesReach(n.right.value, prefix + "1", w, i + 1, c);
        HoldsLeafChars(n.left.value, c);
        CodesKeys(n.left.value, prefix + "0");
        assert next == prefix + "1";
      }
    }
  }

  /** The code of a character read from the root is the path to its leaf. */
  lemma CodeOfPath(n: Node, w: string, c: char)
    requires Full(n) && Reaches(n, w, 0, c)
    ensures c in Codes(n, "") && Codes(n, "")[c] == w
  {
    CodesReach(n, "", w, 0, c);
    assert "" + w[0..] == w;
  }

  /** The code table of the opendsa tree: the eight characters and the
      codes of the encoding-table test. */
  lemma OpendsaRootCodes(root: Node)
    requires root == OpendsaRoot
    ensures Full(root)
    ensures var t := Codes(root, "");
      t.Keys == OpendsaTable.Keys &&
      t['c'] == "1110" && t['d'] == "101" && t['e'] == "0" && t['k'] == "111101" &&
      t['l'] == "110" && t['m'] == "11111" && t['u'] == "100" && t['z'] == "111100"
  {
    OpendsaKeys(root);
    OpendsaPaths(root);
    CodeOfPath(root, "1110", 'c');
    CodeOfPath(root, "101", 'd');
    CodeOfPath(root, "0", 'e');
    CodeOfPath(root, "111101", 'k');
    CodeOfPath(root, "110", 'l');
    CodeOfPath(root, "11111", 'm');
    CodeOfPath(root, "100", 'u');
    CodeOfPath(root, "111100", 'z');
  }

  /** The path to every leaf of the opendsa tree. */
  lemma OpendsaPaths(root: Node)
    requires root == OpendsaRoot
    ensures Reaches(root, "1110", 0, 'c') && Reaches(root, "101", 0, 'd')
    ensures Reaches(root, "0", 0, 'e') && Reaches(root, "111101", 0, 'k')
    ensures Reaches(root, "110", 0, 'l') && Reaches(root, "11111", 0, 'm')
    ensures Reaches(root, "100", 0, 'u') && Reaches(root, "111100", 0, 'z')
  {
    OpendsaPathsCD(root);
    OpendsaPathsEK(root);
    OpendsaPathsLM(root);
    OpendsaPathsUZ(root);
  }

  lemma OpendsaPathsCD(root: Node)
    requires root == OpendsaRoot
    ensures Reaches(root, "1110", 0, 'c') && Reaches(root, "101", 0, 'd')
  {
  }

  lemma OpendsaPathsEK(root: Node)
    requires root == OpendsaRoot
    ensures Reaches(root, "0", 0, 'e') && Reaches(root, "111101", 0, 'k')
  {
  }

  lemma OpendsaPathsLM(root: Node)
    requires root == OpendsaRoot
    ensures Reaches(root, "110", 0, 'l') && Reaches(root, "11111", 0, 'm')
  {
  }

  lemma OpendsaPathsUZ(root: Node)
    requires root == OpendsaRoot
    ensures Reaches(root, "100", 0, 'u') && Reaches(root, "111100", 0, 'z')
  {
  }

  /** The leaves of the opendsa tree from left to right. */
  const OpendsaLeafList: seq<(char, nat)> :=
    [('e', 120), ('u', 37), ('d', 42), ('l', 43), ('c', 32), ('z', 2), ('k', 7), ('m', 24)]

  lemma OpendsaKeys(root: Node)
    requires root == OpendsaRoot
    ensures Full(root) && Codes(root, "").Keys == OpendsaTable.Keys
  {
    OpendsaLeafChars(root);
    CodesKeys(root, "");
  }

  lemma OpendsaLeafChars(root: Node)
    requires root == OpendsaRoot
    ensures LeafChars(root) == OpendsaTable.Keys
  {
    assert LeafList(root) == OpendsaLeafList;
    OpendsaListKeys();
  }

  lemma OpendsaListKeys()
    ensures (set p | p in OpendsaLeafList :: p.0) == OpendsaTable.Keys
  {
    var leaves := OpendsaLeafList;
    forall c | c in (set p | p in leaves :: p.0) ensures c in OpendsaTable.Keys {
      var p :| p in leaves && p.0 == c;
    }
    forall c | c in OpendsaTable.Keys ensures exists p :: p in leaves && p.0 == c {
      OpendsaWitness(c);
    }
  }

  lemma OpendsaWitness(c: char)
    requires c in OpendsaTable.Keys
    ensures exists k :: 0 <= k < |OpendsaLeafList| && OpendsaLeafList[k].0 == c
  {
    var leaves := OpendsaLeafList;
    if c == 'e' { assert leaves[0].0 == c; }
    else if c == 'u' { assert leaves[1].0 == c; }
    else if c == 'd' { assert leaves[2].0 == c; }
    else if c == 'l' { assert leaves[3].0 == c; }
    else if c == 'c' { assert leaves[4].0 == c; }
    else if c == 'z' { assert leaves[5].0 == c; }
    else if c == 'k' { assert leaves[6].0 == c; }
    else { assert leaves[7].0 == c; }
  }

  /** Every node on the walk's stack is a full tree. */
  predicate AllFull(stack: seq<(string, Node)>)
  {
    forall k :: 0 <= k < |stack| ==> Full(stack[k].1)
  }

  /** Pending work of the walk: the codes of the nodes on the stack, the top
      of the stack first, so that entries found later win. */
  function Pending(stack: seq<(string, Node)>): map<char, string>
    requires AllFull(stack)
  {
    if stack == [] then map[]
    else Codes(stack[|stack| - 1].1, stack[|stack| - 1].0) + Pending(stack[..|stack| - 1])
  }

  function Size(n: Node): nat
    decreases n
  {
    1 + (if n.left.Some? then Size(n.left.value) else 0) +
        (if n.right.Some? then Size(n.right.value) else 0)
  }

  function StackSize(stack: seq<(string, Node)>): nat
  {
    if stack == [] then 0 else Size(stack[|stack| - 1].1) + StackSize(stack[..|stack| - 1])
  }

  lemma MapUnion(a: map<char, string>, b: map<char, string>, c: map<char, string>)
    ensures (a + b) + c == a + (b + c)
  {
  }

  /** Taking a leaf off the stack and recording its code leaves the table
      and pending codes together as they were, and shrinks the stack. */
  lemma PopLeaf(table: map<char, string>, rest: seq<(string, Node)>, code: string, node: Node)
    requires AllFull(rest) && Full(node) && node.value.Some?
    ensures AllFull(rest + [(code, node)])
    ensures table[node.value.value := code] + Pending(rest) == table + Pending(rest + [(code, node)])
    ensures StackSize(rest) < StackSize(rest + [(code, node)])
  {
    assert (rest + [(code, node)])[..|rest|] == rest;
    MapUnion(table, map[node.value.value := code], Pending(rest));
  }

  /** Replacing an internal node on top of the stack by its two children
      leaves the table and pending codes together as they were, and shrinks
      the stack. */
  lemma PushChildren(table: map<char, string>, rest: seq<(string, Node)>, code: string, node: Node)
    requires AllFull(rest) && Full(node) && node.value.None?
    ensures AllFull(rest + [(code, node)])
    ensures var pushed := rest + [(code + "0", node.left.value), (code + "1", node.right.value)];
            AllFull(pushed) &&
            table + Pending(pushed) == table + Pending(rest + [(code, node)]) &&
            StackSize(pushed) < StackSize(rest + [(code, node)])
  {
    var left, right := node.left.value, node.right.value;
    var once := rest + [(code + "0", left)];
    var pushed := rest + [(code + "0", left), (code + "1", right)];
    assert pushed[..|pushed| - 1] == once;
    assert once[..|rest|] == rest;
    assert (rest + [(code, node)])[..|rest|] == rest;
    MapUnion(Codes(right, code + "1"), Codes(left, code + "0"), Pending(rest));
  }

  /** `build_encoding_table`: the explicit-stack walk from the root, which
      gives every leaf character its path. (The source also carries an
      unused character in each stack entry.) */
  method BuildEncodingTable(root: Node) returns (table: map<char, string>)
    requires Full(root)
    ensures table == Codes(root, "")
  {
    table := map[];
    var stack: seq<(string, Node)> := [("", root)];
    assert stack[..0] == [];
    while |stack| > 0
      invariant AllFull(stack)
      invariant table + Pending(stack) == Codes(root, "")
      decreases StackSize(stack)
    {
      var code := stack[|stack| - 1].0;
      var node := stack[|stack| - 1].1;
      var rest := stack[..|stack| - 1];
      assert stack == rest + [(code, node)];
      stack := rest;
      match node.value {
        case Some(value) =>
          PopLeaf(table, rest, code, node);
          table := table[value := code];
        case None =>
          PushChildren(table, rest, code, node);
          stack := stack + [(code + "0", node.left.value), (code + "1", node.right.value)];
      }
    }
    assert table + map[] == table;
  }

  // ---------------------------------------------------------------------
  // Bit packing

  /** The code bits of a text, character after character. */
  function Bits(s: string, table: map<char, string>): string
    requires forall k :: 0 <= k < |s| ==> s[k] in table
  {
    if s == [] then [] else table[s[0]] + Bits(s[1..], table)
  }

  lemma {:induction false} BitsAppend(s: string, t: string, table: map<char, string>)
    requires forall k :: 0 <= k < |s| ==> s[k] in table
    requires forall k :: 0 <= k < |t| ==> t[k] in table
    ensures forall k :: 0 <= k < |s + t| ==> (s + t)[k] in table
    ensures Bits(s + t, table) == Bits(s, table) + Bits(t, table)
  {
    if s == [] {
      assert s + t == t;
    } else {
      assert (s + t)[1..] == s[1..] + t;
      BitsAppend(s[1..], t, table);
    }
  }

  function BitValue(bit: char): Byte
  {
    if bit == '1' then 1 else 0
  }

  /** One step of `encode` on the current byte: shift left, add the bit. */
  function ShiftIn(b: Byte, bit: char): Byte
  {
    (b << 1) + BitValue(bit)
  }

  /** The byte `encode` accumulates from some bits. */
  function ByteOf(w: string): Byte
  {
    if w == [] then 0 else ShiftIn(ByteOf(w[..|w| - 1]), w[|w| - 1])
  }

  /** Bytes `encode` pushes for n bits: one when the ninth bit of a group
      arrives, so never the last group of 1 to 8 bits. */
  function PackedCount(n: nat): (k: nat)
    ensures n > 0 ==> 8 * k < n && n <= 8 * k + 8
    ensures n == 0 ==> k == 0
  {
    if n == 0 then 0 else (n - 1) / 8
  }

  /** The bytes `encode` produces from some bits: the complete groups of
      eight, except the last group. */
  function Pack(bits: string): (packed: seq<Byte>)
    ensures |packed| == PackedCount(|bits|)
  {
    seq(PackedCount(|bits|), k requires 0 <= k < PackedCount(|bits|) => ByteOf(bits[8 * k..8 * k + 8]))
  }

  /** The state of the packing loop after some bits: the bytes pushed, the
      bits of the current byte, and how many there are. */
  ghost predicate Packing(done: string, packed: seq<Byte>, current: Byte, cursor: nat)
  {
    packed == Pack(done) && cursor == |done| - 8 * |packed| &&
    (|done| > 0 ==> 1 <= cursor <= 8) && (|done| == 0 ==> cursor == 0) &&
    current == ByteOf(done[8 * |packed|..])
  }

  lemma ByteOfSnoc(w: string, bit: char)
    ensures ByteOf(w + [bit]) == (ByteOf(w) << 1) + BitValue(bit)
  {
    assert (w + [bit])[..|w|] == w;
  }

  /** One bit of the inner loop of `encode`. */
  lemma PackStep(done: string, packed: seq<Byte>, current: Byte, cursor: nat, bit: char)
    requires Packing(done, packed, current, cursor)
    ensures var packed' := if cursor == 8 then packed + [current] else packed;
            var current' := if cursor == 8 then 0 else current;
            var cursor' := if cursor == 8 then 0 else cursor;
            Packing(done + [bit], packed', (current' << 1) + BitValue(bit), cursor' + 1)
  {
    var done' := done + [bit];
    var packed' := if cursor == 8 then packed + [current] else packed;
    assert |packed'| == PackedCount(|done'|);
    forall k | 0 <= k < |packed'|
      ensures packed'[k] == ByteOf(done'[8 * k..8 * k + 8])
    {
      assert done'[8 * k..8 * k + 8] == done[8 * k..8 * k + 8] by {
        assert 8 * k + 8 <= |done|;
      }
      if k == |packed| {
        assert done[8 * k..8 * k + 8] == done[8 * |packed|..];
      }
    }
    assert done'[8 * |packed'|..] == done[8 * |packed'|..] + [bit];
    ByteOfSnoc(done[8 * |packed'|..], bit);
  }

  /** The inner loop of `encode`: the bits of one code, shifted into the
      current byte one by one. */
  method PackCode(code: string, ghost done: string, packed: seq<Byte>, currentByte: Byte, bitCursor: nat)
    returns (packed': seq<Byte>, currentByte': Byte, bitCursor': nat)
    requires Packing(done, packed, currentByte, bitCursor)
    ensures Packing(done + code, packed', currentByte', bitCursor')
  {
    packed', currentByte', bitCursor' := packed, currentByte, bitCursor;
    assert done + code[..0] == done;
    for j := 0 to |code|
      invariant Packing(done + code[..j], packed', currentByte', bitCursor')
    {
      ghost var (p, c, n) := (packed', currentByte', bitCursor');
      if bitCursor' == 8 {
        packed' := packed' + [currentByte'];
        currentByte' := 0;
        bitCursor' := 0;
      }
      currentByte' := currentByte' << 1;
      if code[j] == '1' {
        currentByte' := currentByte' + 1;
      }
      bitCursor' := bitCursor' + 1;
      PackStep(done + code[..j], p, c, n, code[j]);
      assert done + code[..j + 1] == done + code[..j] + [code[j]];
    }
    assert code[..|code|] == code;
  }

  /** `encode` without its Base64 step: every character's code, bit by bit,
      shifted into the current byte, which is pushed when the next bit
      finds it full. */
  method Encode(s: string, table: map<char, string>) returns (packed: seq<Byte>)
    requires forall k :: 0 <= k < |s| ==> s[k] in table
    ensures packed == Pack(Bits(s, table))
  {
    var currentByte, bitCursor;
    packed, currentByte, bitCursor := PackText(s, table);
  }

  /** The loop of `encode` over the characters of the text, with the byte
      and the bit count it leaves behind. */
  method PackText(s: string, table: map<char, string>) returns (packed: seq<Byte>, currentByte: Byte, bitCursor: nat)
    requires forall k :: 0 <= k < |s| ==> s[k] in table
    ensures Packing(Bits(s, table), packed, currentByte, bitCursor)
  {
    packed := [];
    currentByte := 0;
    bitCursor := 0;
    for i := 0 to |s|
      invariant Packing(Bits(s[..i], table), packed, currentByte, bitCursor)
    {
      var code := table[s[i]];
      packed, currentByte, bitCursor := PackCode(code, Bits(s[..i], table), packed, currentByte, bitCursor);
      assert s[..i + 1] == s[..i] + [s[i]];
      BitsAppend(s[..i], [s[i]], table);
      assert [s[i]][1..] == [];
      assert Bits([s[i]], table) == code + [];
      assert Bits(s[..i + 1], table) == Bits(s[..i], table) + code;
    }
    assert s[..|s|] == s;
  }

  // ---------------------------------------------------------------------
  // Unpacking and decoding

  /** The bits of a byte as the decoding loop reads them: the test
      `byte & (1 << 7 - j) != 0` for j from 0 to 7. */
  function ByteBits(b: Byte): (w: string)
    ensures |w| == 8
  {
    seq(8, j requires 0 <= j < 8 => BitChar(b, j))
  }

  /** Bit j of a byte, counted from the most significant one. */
  function BitChar(b: Byte, j: nat): char
    requires j < 8
  {
    if b & ((1 as Byte) << (7 - j)) != 0 then '1' else '0'
  }

  /** The bits of all bytes, most significant first. */
  function Unpack(bytes: seq<Byte>): (bits: string)
    ensures |bits| == 8 * |bytes|
  {
    if bytes == [] then [] else ByteBits(bytes[0]) + Unpack(bytes[1..])
  }

  /** Reading a packed byte back gives the eight bits it was made of. */
  lemma ByteRoundTrip(w: string)
    requires |w| == 8 && Binary(w)
    ensures ByteBits(ByteOf(w)) == w
  {
    ByteBitsOf(w);
    assert Zeros(0) + w == w;
  }

  function Zeros(n: nat): (z: string)
    ensures |z| == n && forall k :: 0 <= k < n ==> z[k] == '0'
  {
    seq(n, _ => '0')
  }

  /** The bits of the byte made from up to eight bits: the bits, after as
      many zeros as are missing. */
  lemma {:induction false} ByteBitsOf(w: string)
    requires |w| <= 8 && Binary(w)
    ensures ByteBits(ByteOf(w)) == Zeros(8 - |w|) + w
  {
    if w == [] {
      assert ByteBits(0) == Zeros(8) by {
        forall j | 0 <= j < 8 ensures BitChar(0, j) == '0' { }
      }
    } else {
      var init, c := w[..|w| - 1], w[|w| - 1];
      ByteBitsOf(init);
      ByteBitsShift(ByteOf(init), c);
      assert (Zeros(9 - |w|) + init)[1..] == Zeros(8 - |w|) + init;
      assert Zeros(8 - |w|) + init + [c] == Zeros(8 - |w|) + w;
    }
  }

  /** Shifting a bit into a byte moves its bits up by one and puts the new
      bit last. */
  lemma ByteBitsShift(b: Byte, c: char)
    requires IsBit(c)
    ensures ByteBits(ShiftIn(b, c)) == ByteBits(b)[1..] + [c]
  {
    forall j | 0 <= j < 7
      ensures BitChar(ShiftIn(b, c), j) == BitChar(b, j + 1)
    {
      ShiftedBit(b, c, j);
    }
    LastBit(b, c);
  }

  lemma ShiftedBit(b: Byte, c: char, j: nat)
    requires j < 7
    ensures BitChar(ShiftIn(b, c), j) == BitChar(b, j + 1)
  {
  }

  lemma LastBit(b: Byte, c: char)
    requires IsBit(c)
    ensures BitChar(ShiftIn(b, c), 7) == c
  {
  }

  lemma {:induction false} UnpackAppend(a: seq<Byte>, b: seq<Byte>)
    ensures Unpack(a + b) == Unpack(a) + Unpack(b)
  {
    if a == [] {
      assert a + b == b;
    } else {
      assert (a + b)[1..] == a[1..] + b;
      UnpackAppend(a[1..], b);
    }
  }

  /** Unpacking the packed bytes gives back all the bits but the last group:
      the bits that `encode` drops are lost. */
  lemma UnpackPack(bits: string)
    requires Binary(bits)
    ensures Unpack(Pack(bits)) == bits[..8 * PackedCount(|bits|)]
  {
    UnpackGroups(bits, PackedCount(|bits|));
    assert Pack(bits)[..PackedCount(|bits|)] == Pack(bits);
  }

  lemma {:induction false} UnpackGroups(bits: string, k: nat)
    requires Binary(bits) && k <= PackedCount(|bits|)
    ensures Unpack(Pack(bits)[..k]) == bits[..8 * k]
  {
    if k > 0 {
      UnpackGroups(bits, k - 1);
      var group := bits[8 * (k - 1)..8 * k];
      assert Pack(bits)[..k] == Pack(bits)[..k - 1] + [ByteOf(group)];
      UnpackAppend(Pack(bits)[..k - 1], [ByteOf(group)]);
      ByteRoundTrip(group);
      assert Unpack([ByteOf(group)]) == ByteBits(ByteOf(group)) + Unpack([]);
      assert bits[..8 * k] == bits[..8 * (k - 1)] + group;
    }
  }

  /** The decoding loop: each bit is appended to the pattern; a pattern that
      is a code emits its character and starts over. A pattern left over at
      the end is dropped. */
  function Decode(decodingTable: map<string, char>, bits: string, pattern: string): string
  {
    if bits == [] then []
    else
      var p := pattern + [bits[0]];
      if p in decodingTable then [decodingTable[p]] + Decode(decodingTable, bits[1..], [])
      else Decode(decodingTable, bits[1..], p)
  }

  /** The inner loop of `decompress`: the eight bits of one byte, most
      significant first, each appended to the pattern. */
  method DecodeByte(byte: Byte, decodingTable: map<string, char>, output: string, pattern: string,
                    ghost after: string)
    returns (output': string, pattern': string)
    ensures output' + Decode(decodingTable, after, pattern') ==
            output + Decode(decodingTable, ByteBits(byte) + after, pattern)
  {
    output', pattern' := output, pattern;
    assert ByteBits(byte)[0..] == ByteBits(byte);
    for j := 0 to 8
      invariant output' + Decode(decodingTable, ByteBits(byte)[j..] + after, pattern') ==
                output + Decode(decodingTable, ByteBits(byte) + after, pattern)
    {
      var bit := byte & ((1 as Byte) << (7 - j)) != 0;
      var next := if bit then '1' else '0';
      ghost var rest := ByteBits(byte)[j..] + after;
      assert rest[0] == next;
      assert rest[1..] == ByteBits(byte)[j + 1..] + after;
      pattern' := pattern' + [next];
      if pattern' in decodingTable {
        output' := output' + [decodingTable[pattern']];
        pattern' := [];
      }
    }
    assert ByteBits(byte)[8..] + after == after;
  }

  /** The loops of `decompress` over the decoded bytes. */
  method DecodeBytes(bytes: seq<Byte>, decodingTable: map<string, char>) returns (output: string)
    ensures output == Decode(decodingTable, Unpack(bytes), [])
  {
    output := [];
    var pattern: string := [];
    assert bytes[0..] == bytes;
    assert output + Decode(decodingTable, Unpack(bytes), []) == Decode(decodingTable, Unpack(bytes), []);
    for i := 0 to |bytes|
      invariant output + Decode(decodingTable, Unpack(bytes[i..]), pattern) ==
                Decode(decodingTable, Unpack(bytes), [])
    {
      assert bytes[i..][1..] == bytes[i + 1..];
      output, pattern := DecodeByte(bytes[i], decodingTable, output, pattern, Unpack(bytes[i + 1..]));
    }
    assert Unpack(bytes[|bytes|..]) == [];
    assert output + [] == output;
  }

  // ---------------------------------------------------------------------
  // Decoding inverts encoding

  /** A decoding table that maps every code back to its character, and
      holds nothing else. */
  predicate InverseOf(decodingTable: map<string, char>, table: map<char, string>)
  {
    (forall c :: c in table ==> table[c] in decodingTable && decodingTable[table[c]] == c) &&
    (forall w :: w in decodingTable ==> decodingTable[w] in table && table[decodingTable[w]] == w)
  }

  /** Reading one code from the middle: the proper prefixes of a code are no
      codes, so the code is read to its end and emits its character. */
  lemma {:induction false} ReadCode(decodingTable: map<string, char>, table: map<char, string>,
                                    c: char, rest: string, k: nat)
    requires InverseOf(decodingTable, table) && PrefixFree(table)
    requires c in table && k < |table[c]|
    ensures Decode(decodingTable, table[c][k..] + rest, table[c][..k]) ==
            [c] + Decode(decodingTable, rest, [])
    decreases |table[c]| - k
  {
    var w := table[c];
    var bits := w[k..] + rest;
    assert bits[0] == w[k] && bits[1..] == w[k + 1..] + rest;
    assert w[..k] + [w[k]] == w[..k + 1];
    if k + 1 == |w| {
      assert w[..k + 1] == w && w[k + 1..] + rest == rest;
    } else {
      ProperPrefixIsNoCode(decodingTable, table, c, k + 1);
      ReadCode(decodingTable, table, c, rest, k + 1);
    }
  }

  lemma ProperPrefixIsNoCode(decodingTable: map<string, char>, table: map<char, string>, c: char, k: nat)
    requires InverseOf(decodingTable, table) && PrefixFree(table)
    requires c in table && k < |table[c]|
    ensures table[c][..k] !in decodingTable
  {
    var w := table[c];
    forall d | d in table
      ensures table[d] != w[..k]
    {
      if d != c {
        assert !(table[d] <= w);
        assert w[..k] <= w;
      }
    }
  }

  /** Part of a code, however far it is read, emits nothing. */
  lemma {:induction false} PartialCode(decodingTable: map<string, char>, table: map<char, string>,
                                       c: char, k: nat, l: nat)
    requires InverseOf(decodingTable, table) && PrefixFree(table)
    requires c in table && k <= l < |table[c]|
    ensures Decode(decodingTable, table[c][k..l], table[c][..k]) == []
    decreases l - k
  {
    var w := table[c];
    if k < l {
      assert w[k..l][0] == w[k] && w[k..l][1..] == w[k + 1..l];
      assert w[..k] + [w[k]] == w[..k + 1];
      ProperPrefixIsNoCode(decodingTable, table, c, k + 1);
      PartialCode(decodingTable, table, c, k + 1, l);
    } else {
      assert w[k..l] == [];
    }
  }

  /** Greedy decoding inverts concatenation: the code bits of a text decode
      to the text, for prefix-free non-empty codes. */
  lemma {:induction false} DecodeBits(decodingTable: map<string, char>, table: map<char, string>, msg: string)
    requires InverseOf(decodingTable, table) && PrefixFree(table)
    requires forall c :: c in table ==> |table[c]| > 0
    requires forall k :: 0 <= k < |msg| ==> msg[k] in table
    ensures Decode(decodingTable, Bits(msg, table), []) == msg
  {
    if msg != [] {
      var w := table[msg[0]];
      DecodeBits(decodingTable, table, msg[1..]);
      ReadCode(decodingTable, table, msg[0], Bits(msg[1..], table), 0);
      assert w[0..] == w && w[..0] == [];
      assert msg == [msg[0]] + msg[1..];
    }
  }

  /** Decoding only the first l code bits of a text gives a prefix of the
      text, and a shorter one when bits are missing. */
  lemma {:induction false} DecodePrefix(decodingTable: map<string, char>, table: map<char, string>,
                                        msg: string, l: nat)
    requires InverseOf(decodingTable, table) && PrefixFree(table)
    requires forall c :: c in table ==> |table[c]| > 0
    requires forall k :: 0 <= k < |msg| ==> msg[k] in table
    requires l <= |Bits(msg, table)|
    ensures Decode(decodingTable, Bits(msg, table)[..l], []) <= msg
    ensures l < |Bits(msg, table)| ==> |Decode(decodingTable, Bits(msg, table)[..l], [])| < |msg|
  {
    if msg == [] {
      assert Bits(msg, table)[..l] == [];
    } else {
      var w := table[msg[0]];
      var rest := Bits(msg[1..], table);
      assert Bits(msg, table) == w + rest;
      if l >= |w| {
        DecodePrefix(decodingTable, table, msg[1..], l - |w|);
        assert Bits(msg, table)[..l] == w[0..] + rest[..l - |w|];
        ReadCode(decodingTable, table, msg[0], rest[..l - |w|], 0);
        assert w[..0] == [];
        assert msg == [msg[0]] + msg[1..];
      } else {
        assert Bits(msg, table)[..l] == w[0..l];
        PartialCode(decodingTable, table, msg[0], 0, l);
        assert w[..0] == [];
      }
    }
  }

  // ---------------------------------------------------------------------
  // The coder as a whole

  /** What the encoding table of a tree with at least two leaves guarantees
      the decoder: prefix-free, non-empty, binary codes for exactly the
      leaf characters. */
  lemma TreeCodes(root: Node)
    requires Full(root) && root.value.None?
    ensures Codes(root, "").Keys == LeafChars(root)
    ensures PrefixFree(Codes(root, ""))
    ensures forall c :: c in Codes(root, "") ==> |Codes(root, "")[c]| > 0 && Binary(Codes(root, "")[c])
  {
    CodesShape(root, "");
    CodesPrefixFree(root, "");
    forall c | c in Codes(root, "") ensures Binary(Codes(root, "")[c]) {
      assert Codes(root, "")[c][0..] == Codes(root, "")[c];
    }
  }

  lemma {:induction false} BitsBinary(msg: string, table: map<char, string>)
    requires forall k :: 0 <= k < |msg| ==> msg[k] in table
    requires forall c :: c in table ==> Binary(table[c])
    ensures Binary(Bits(msg, table))
  {
    if msg != [] {
      BitsBinary(msg[1..], table);
    }
  }

  /** Compressing and decompressing a text over a tree of two or more leaves
      recovers only a proper prefix of the text: the bits of the last group
      never reach a byte, so at least the last character is lost. */
  lemma RoundTripLosesTail(root: Node, decodingTable: map<string, char>, msg: string)
    requires Full(root) && root.value.None?
    requires InverseOf(decodingTable, Codes(root, ""))
    requires forall k :: 0 <= k < |msg| ==> msg[k] in Codes(root, "")
    ensures var out := Decode(decodingTable, Unpack(Pack(Bits(msg, Codes(root, "")))), []);
            out <= msg && (|msg| > 0 ==> |out| < |msg|)
  {
    var table := Codes(root, "");
    TreeCodes(root);
    BitsBinary(msg, table);
    var bits := Bits(msg, table);
    UnpackPack(bits);
    DecodePrefix(decodingTable, table, msg, 8 * PackedCount(|bits|));
    if |msg| > 0 {
      assert |bits| >= |table[msg[0]]| > 0;
    }
  }

  /** A text of one repeated character has a one-leaf tree and the empty
      code: the header's only entry has an empty code, nothing is packed,
      and the inverse table (the empty pattern to the character) decodes
      nothing, since a pattern is looked up only after a bit is added. */
  lemma SingleSymbolDecodesToNothing(c: char, frequency: nat, msg: string, decodingTable: map<string, char>)
    requires forall k :: 0 <= k < |msg| ==> msg[k] == c
    requires InverseOf(decodingTable, Codes(NewLeaf(c, frequency), ""))
    ensures forall k :: 0 <= k < |msg| ==> msg[k] in Codes(NewLeaf(c, frequency), "")
    ensures HeaderEntries(Codes(NewLeaf(c, frequency), ""), [c]) == [(KeyName(c), "")]
    ensures decodingTable == map["" := c]
    ensures Pack(Bits(msg, Codes(NewLeaf(c, frequency), ""))) == []
    ensures Decode(decodingTable, Unpack(Pack(Bits(msg, Codes(NewLeaf(c, frequency), "")))), []) == []
  {
    SingleLeafCode(c, frequency);
    EmptyCodeBits(c, msg);
    var table := Codes(NewLeaf(c, frequency), "");
    assert c in table && table[c] == "";
    assert "" in decodingTable && decodingTable[""] == c;
    forall w | w in decodingTable
      ensures w == ""
    {
      assert decodingTable[w] in table && table[decodingTable[w]] == w;
    }
    assert decodingTable.Keys == {""};
  }

  lemma {:induction false} EmptyCodeBits(c: char, msg: string)
    requires forall k :: 0 <= k < |msg| ==> msg[k] == c
    ensures Bits(msg, map[c := ""]) == []
  {
    if msg != [] {
      EmptyCodeBits(c, msg[1..]);
    }
  }

  // ---------------------------------------------------------------------
  // Names of whitespace characters in the header

  /** The name `compress` writes for a character in the header. */
  function KeyName(c: char): string
  {
    match c
    case ' ' => ":space"
    case '\n' => ":newline"
    case '\r' => ":return"
    case '\t' => ":tab"
    case _ => [c]
  }

  /** The character `decompress` reads back from a name: one of the four
      names, or a single character; anything else fails to parse. */
  function NameChar(token: string): Option<char>
  {
    if token == ":space" then Some(' ')
    else if token == ":newline" then Some('\n')
    else if token == ":return" then Some('\r')
    else if token == ":tab" then Some('\t')
    else if |token| == 1 then Some(token[0])
    else None
  }

  /** Every character's header name reads back as that character. */
  lemma NamesRoundTrip(c: char)
    ensures NameChar(KeyName(c)) == Some(c)
  {
  }

  // ---------------------------------------------------------------------
  // The header and the decoding table

  /** Some order of the characters of a code table, each once: the
      iteration order of the table when `compress` writes its header. */
  predicate KeyOrder(order: seq<char>, table: map<char, string>)
  {
    (forall k :: 0 <= k < |order| ==> order[k] in table) &&
    (forall c :: c in table ==> c in order) &&
    (forall i, j :: 0 <= i < j < |order| ==> order[i] != order[j])
  }

  /** The header entries for some characters: each character's name and its
      code. */
  function HeaderEntries(table: map<char, string>, order: seq<char>): (header: seq<(string, string)>)
    requires forall k :: 0 <= k < |order| ==> order[k] in table
    ensures |header| == |order|
  {
    if order == [] then []
    else
      var c := order[|order| - 1];
      HeaderEntries(table, order[..|order| - 1]) + [(KeyName(c), table[c])]
  }

  /** The header `compress` writes: one entry per character of the table. */
  method HeaderOf(table: map<char, string>) returns (header: seq<(string, string)>, ghost order: seq<char>)
    ensures KeyOrder(order, table)
    ensures header == HeaderEntries(table, order)
  {
    header, order := [], [];
    var left := table.Keys;
    while left != {}
      invariant left <= table.Keys
      invariant forall k :: 0 <= k < |order| ==> order[k] in table && order[k] !in left
      invariant forall c :: c in table && c !in left ==> c in order
      invariant forall i, j :: 0 <= i < j < |order| ==> order[i] != order[j]
      invariant header == HeaderEntries(table, order)
      decreases |left|
    {
      var c :| c in left;
      header := header + [(KeyName(c), table[c])];
      order := order + [c];
      assert order[..|order| - 1] + [c] == order;
      left := left - {c};
    }
  }

  /** The decoding table `decompress` builds from the header entries, a
      later entry for the same code replacing an earlier one; `None` when a
      name is neither one of the four names nor a single character, where
      `decompress` panics. */
  function DecodingTableOf(header: seq<(string, string)>): Option<map<string, char>>
  {
    if header == [] then Some(map[])
    else
      var entry := header[|header| - 1];
      match DecodingTableOf(header[..|header| - 1])
      case None => None
      case Some(m) =>
        match NameChar(entry.0)
        case None => None
        case Some(c) => Some(m[entry.1 := c])
  }

  /** Building the decoding table fails exactly when some name in the header
      does not read back as a character. */
  lemma {:induction false} DecodingTableFails(header: seq<(string, string)>)
    ensures DecodingTableOf(header).None? <==>
            exists k :: 0 <= k < |header| && NameChar(header[k].0).None?
  {
    if header != [] {
      var init := header[..|header| - 1];
      DecodingTableFails(init);
      if exists k :: 0 <= k < |init| && NameChar(init[k].0).None? {
        var k :| 0 <= k < |init| && NameChar(init[k].0).None?;
        assert header[k] == init[k];
      }
      if exists k :: 0 <= k < |header| && NameChar(header[k].0).None? {
        var k :| 0 <= k < |header| && NameChar(header[k].0).None?;
        if k < |init| {
          assert init[k] == header[k];
        }
      }
    }
  }

  /** The header loop of `decompress`: each entry's name is read back as a
      character and stored under its code. */
  method BuildDecodingTable(header: seq<(string, string)>) returns (r: Option<map<string, char>>)
    ensures r == DecodingTableOf(header)
  {
    var decodingTable: map<string, char> := map[];
    assert header[..0] == [];
    for i := 0 to |header|
      invariant DecodingTableOf(header[..i]) == Some(decodingTable)
    {
      var token := header[i].0;
      var code := header[i].1;
      assert header[..i + 1][..i] == header[..i];
      match NameChar(token) {
        case None =>
          DecodingTableFails(header);
          return None;
        case Some(c) =>
          decodingTable := decodingTable[code := c];
      }
    }
    assert header[..|header|] == header;
    return Some(decodingTable);
  }

  /** Reading back the header of a prefix-free table gives each code its
      character, and nothing else. */
  lemma {:induction false} HeaderTable(table: map<char, string>, order: seq<char>)
    requires forall k :: 0 <= k < |order| ==> order[k] in table
    requires forall i, j :: 0 <= i < j < |order| ==> order[i] != order[j]
    requires PrefixFree(table)
    ensures DecodingTableOf(HeaderEntries(table, order)).Some?
    ensures var m := DecodingTableOf(HeaderEntries(table, order)).value;
            (forall k :: 0 <= k < |order| ==> table[order[k]] in m && m[table[order[k]]] == order[k]) &&
            (forall w :: w in m ==> m[w] in order && table[m[w]] == w)
  {
    if order != [] {
      var init, c := order[..|order| - 1], order[|order| - 1];
      HeaderTable(table, init);
      var header := HeaderEntries(table, order);
      assert header[..|header| - 1] == HeaderEntries(table, init);
      NamesRoundTrip(c);
      var m := DecodingTableOf(HeaderEntries(table, init)).value;
      forall k | 0 <= k < |init|
        ensures table[init[k]] != table[c]
      {
        assert !(table[init[k]] <= table[c]);
      }
      var m' := m[table[c] := c];
      assert DecodingTableOf(header) == Some(m');
      forall k | 0 <= k < |order|
        ensures table[order[k]] in m' && m'[table[order[k]]] == order[k]
      {
        if k < |init| {
          assert order[k] == init[k];
        }
      }
    }
  }

  /** The header `compress` writes for a prefix-free table reads back as its
      inverse. */
  lemma HeaderInverts(table: map<char, string>, order: seq<char>)
    requires KeyOrder(order, table) && PrefixFree(table)
    ensures DecodingTableOf(HeaderEntries(table, order)).Some?
    ensures InverseOf(DecodingTableOf(HeaderEntries(table, order)).value, table)
  {
    HeaderTable(table, order);
    var m := DecodingTableOf(HeaderEntries(table, order)).value;
    forall c | c in table
      ensures table[c] in m && m[table[c]] == c
    {
      var k :| 0 <= k < |order| && order[k] == c;
    }
  }

  // ---------------------------------------------------------------------
  // Compress and decompress

  /** The output of `compress` without its text layout and Base64 step. */
  datatype Compressed = Compressed(header: seq<(string, string)>, packed: seq<Byte>)

  /** `compress`: `None` where the empty text makes `build_tree` fail and
      its `unwrap` panic. Decompressing what it produces gives back a proper
      prefix of the text. */
  method Compress(s: string) returns (r: Option<Compressed>)
    ensures r.None? <==> s == []
    ensures r.Some? ==> DecodingTableOf(r.value.header).Some?
    ensures r.Some? ==>
              var out := Decode(DecodingTableOf(r.value.header).value, Unpack(r.value.packed), []);
              out <= s && |out| < |s|
  {
    var frequencies := GetFrequencyTable(s);
    var tree, order, bags, merges := BuildTree(frequencies);
    assert s != [] ==> s[0] in frequencies;
    if tree.Err? {
      return None;
    }
    var root := tree.value;
    var codes := BuildEncodingTable(root);
    LeavesAreTable(root, order, frequencies);
    CodesShape(root, "");
    CodesPrefixFree(root, "");
    forall k | 0 <= k < |s|
      ensures s[k] in codes
    {
      assert s[k] in frequencies;
      assert (s[k], frequencies[s[k]]) in LeafList(root);
    }
    var packed := Encode(s, codes);
    var header, keys := HeaderOf(codes);
    HeaderInverts(codes, keys);
    var decodingTable := DecodingTableOf(header).value;
    if root.value.None? {
      RoundTripLosesTail(root, decodingTable, s);
    } else {
      var c := root.value.value;
      assert root == NewLeaf(c, root.frequency);
      SingleLeafCode(c, root.frequency);
      SingleSymbolDecodesToNothing(c, root.frequency, s, decodingTable);
    }
    return Some(Compressed(header, packed));
  }

  /** `decompress` after the Base64 step: the decoding table from the
      header, then the decoding loop over the bytes; `None` where a header
      name makes it panic. */
  method Decompress(c: Compressed) returns (r: Option<string>)
    ensures r.None? <==> DecodingTableOf(c.header).None?
    ensures r.Some? ==> r.value == Decode(DecodingTableOf(c.header).value, Unpack(c.packed), [])
  {
    var decodingTable := BuildDecodingTable(c.header);
    if decodingTable.None? {
      return None;
    }
    var output := DecodeBytes(c.packed, decodingTable.value);
    return Some(output);
  }
}
