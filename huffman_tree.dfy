/** The Huffman tree of the compression tool: the frequency table of a
    text, the tree nodes, their reversed ordering, and the tree built by
    repeatedly merging the two lowest-frequency nodes of a heap. Which of
    several equal-frequency nodes the heap gives up first is left open:
    every property below holds for any choice. Frequencies are unbounded
    here; the source keeps them in `u32`. */
module HuffmanTree {

  datatype Option<T> = None | Some(value: T)

  datatype Result<T> = Ok(value: T) | Err(message: string)

  /** A tree node: a leaf holds a character, an internal node its children;
      both carry a frequency. */
  datatype Node = Node(left: Option<Node>, right: Option<Node>, value: Option<char>, frequency: nat)

  /** `new_leaf`. */
  function NewLeaf(value: char, frequency: nat): Node
  {
    Node(None, None, Some(value), frequency)
  }

  /** The frequency an absent child contributes: none. */
  function FrequencyOf(n: Option<Node>): nat
  {
    if n.Some? then n.value.frequency else 0
  }

  /** `new_node`: an internal node over the children given, weighing as much
      as they do together; nothing when both are absent. */
  function NewNode(left: Option<Node>, right: Option<Node>): (r: Option<Node>)
    ensures r.None? <==> left.None? && right.None?
    ensures r.Some? ==> r.value.value.None? && r.value.left == left && r.value.right == right
    ensures r.Some? ==> r.value.frequency == FrequencyOf(left) + FrequencyOf(right)
  {
    match (left, right)
    case (Some(l), Some(r)) => Some(Node(left, right, None, l.frequency + r.frequency))
    case (Some(l), None) => Some(Node(left, None, None, l.frequency))
    case (None, Some(r)) => Some(Node(None, right, None, r.frequency))
    case (None, None) => None
  }

  datatype Ordering = Less | Equal | Greater

  function CompareNat(a: nat, b: nat): Ordering
  {
    if a < b then Less else if a == b then Equal else Greater
  }

  /** `Ord for Node`: frequencies compared the other way round, so that the
      standard max-heap gives up the lowest frequency first. */
  function Compare(a: Node, b: Node): (o: Ordering)
    ensures o == Greater <==> a.frequency < b.frequency
    ensures o == Less <==> b.frequency < a.frequency
  {
    CompareNat(b.frequency, a.frequency)
  }

  // ---------------------------------------------------------------------
  // The frequency table

  /** `get_frequency_table`: every character of the text with its number of
      occurrences, and nothing else. */
  method GetFrequencyTable(s: string) returns (table: map<char, nat>)
    ensures forall c :: c in table <==> c in s
    ensures forall c :: c in table ==> table[c] == multiset(s)[c]
  {
    table := map[];
    for i := 0 to |s|
      invariant forall c :: c in table <==> c in s[..i]
      invariant forall c :: c in table ==> table[c] == multiset(s[..i])[c]
    {
      assert s[..i + 1] == s[..i] + [s[i]];
      var count := if s[i] in table then table[s[i]] else 0;
      table := table[s[i] := count + 1];
    }
    assert s[..|s|] == s;
  }

  /** The unit test on "Hello, world!": any table `get_frequency_table`
      may return for it has the text's ten distinct characters as keys,
      with `l` counted three times and `o` twice. */
  lemma FrequencyExamples(table: map<char, nat>)
    requires forall c :: c in table <==> c in "Hello, world!"
    requires forall c :: c in table ==> table[c] == multiset("Hello, world!")[c]
    ensures table.Keys == {'H', 'e', 'l', 'o', ',', ' ', 'w', 'r', 'd', '!'}
    ensures |table| == 10
    ensures table['l'] == 3 && table['o'] == 2
  {
    HelloKeys(table.Keys);
    assert |table| == |table.Keys|;
    HelloL();
    HelloO();
  }

  predicate HelloChar(c: char)
  {
    c == 'H' || c == 'e' || c == 'l' || c == 'o' || c == ',' || c == ' ' || c == 'w' || c == 'r' || c == 'd' || c == '!'
  }

  /** The distinct characters of "Hello, world!". */
  lemma HelloKeys(keys: set<char>)
    requires forall c :: c in keys <==> c in "Hello, world!"
    ensures keys == {'H', 'e', 'l', 'o', ',', ' ', 'w', 'r', 'd', '!'}
    ensures |keys| == 10
  {
    forall c ensures c in keys <==> HelloChar(c) {
      HelloChars(c);
    }
    TenChars(keys);
  }

  lemma HelloChars(c: char)
    ensures c in "Hello, world!" <==> HelloChar(c)
  {
  }

  lemma TenChars(keys: set<char>)
    requires forall c :: c in keys <==> HelloChar(c)
    ensures keys == {'H', 'e', 'l', 'o', ',', ' ', 'w', 'r', 'd', '!'}
    ensures |keys| == 10
  {
    assert keys == {'H', 'e', 'l', 'o', ',', ' ', 'w', 'r', 'd', '!'};
  }

  lemma HelloL()
    ensures multiset("Hello, world!")['l'] == 3
  {
  }

  lemma HelloO()
    ensures multiset("Hello, world!")['o'] == 2
  {
  }

  /** The unit test on the empty text: any table for it is empty. */
  lemma EmptyFrequencies(table: map<char, nat>)
    requires forall c :: c in table <==> c in ""
    ensures |table| == 0
  {
    assert table.Keys == {};
  }

  // ---------------------------------------------------------------------
  // Tree shape

  /** The leaves from left to right, each with its frequency. */
  function LeafList(n: Node): seq<(char, nat)>
    decreases n
  {
    match n.value
    case Some(c) => [(c, n.frequency)]
    case None =>
      (if n.left.Some? then LeafList(n.left.value) else []) +
      (if n.right.Some? then LeafList(n.right.value) else [])
  }

  /** The trees `build_tree` makes: leaves have no children; an internal
      node has two, weighs as much as they do together, and holds the
      lighter one (the one popped first) on the left. */
  predicate Full(n: Node)
    decreases n
  {
    match n.value
    case Some(_) => n.left.None? && n.right.None?
    case None =>
      n.left.Some? && n.right.Some? &&
      Full(n.left.value) && Full(n.right.value) &&
      n.frequency == n.left.value.frequency + n.right.value.frequency &&
      n.left.value.frequency <= n.right.value.frequency
  }

  /** The sum of the frequencies of some entries. */
  function Total(es: seq<(char, nat)>): nat
  {
    if es == [] then 0 else es[0].1 + Total(es[1..])
  }

  lemma {:induction false} TotalConcat(a: seq<(char, nat)>, b: seq<(char, nat)>)
    ensures Total(a + b) == Total(a) + Total(b)
  {
    if a == [] {
      assert a + b == b;
    } else {
      assert (a + b)[1..] == a[1..] + b;
      TotalConcat(a[1..], b);
    }
  }

  /** A full tree weighs as much as its leaves together, and has some. */
  lemma {:induction false} FullWeight(n: Node)
    requires Full(n)
    ensures n.frequency == Total(LeafList(n))
    ensures |LeafList(n)| >= 1
    decreases n
  {
    if n.value.None? {
      FullWeight(n.left.value);
      FullWeight(n.right.value);
      TotalConcat(LeafList(n.left.value), LeafList(n.right.value));
    } else {
      assert Total(LeafList(n)) == n.frequency + Total([]);
    }
  }

  // ---------------------------------------------------------------------
  // The heap

  /** The leaves of the nodes of a heap, node after node. */
  function Flat(heap: seq<Node>): seq<(char, nat)>
  {
    if heap == [] then [] else LeafList(heap[0]) + Flat(heap[1..])
  }

  lemma {:induction false} FlatConcat(a: seq<Node>, b: seq<Node>)
    ensures Flat(a + b) == Flat(a) + Flat(b)
  {
    if a == [] {
      assert a + b == b;
    } else {
      assert (a + b)[1..] == a[1..] + b;
      FlatConcat(a[1..], b);
    }
  }

  /** The frequencies of the nodes of a heap together. */
  function Weight(heap: seq<Node>): nat
  {
    if heap == [] then 0 else heap[0].frequency + Weight(heap[1..])
  }

  lemma {:induction false} WeightConcat(a: seq<Node>, b: seq<Node>)
    ensures Weight(a + b) == Weight(a) + Weight(b)
  {
    if a == [] {
      assert a + b == b;
    } else {
      assert (a + b)[1..] == a[1..] + b;
      WeightConcat(a[1..], b);
    }
  }

  /** Removing the node at i: its leaves and weight leave with it. */
  lemma RemoveAt(heap: seq<Node>, i: nat)
    requires i < |heap|
    ensures multiset(Flat(heap)) == multiset(Flat(heap[..i] + heap[i + 1..])) + multiset(LeafList(heap[i]))
    ensures Weight(heap) == Weight(heap[..i] + heap[i + 1..]) + heap[i].frequency
  {
    var a, n, b := heap[..i], heap[i], heap[i + 1..];
    assert heap == a + ([n] + b);
    FlatRemove(a, n, b);
    WeightConcat(a, [n] + b);
    WeightConcat([n], b);
    WeightConcat(a, b);
  }

  lemma FlatRemove(a: seq<Node>, n: Node, b: seq<Node>)
    ensures multiset(Flat(a + ([n] + b))) == multiset(Flat(a + b)) + multiset(LeafList(n))
  {
    FlatConcat(a, [n] + b);
    FlatConcat([n], b);
    FlatConcat(a, b);
    assert Flat([n]) == LeafList(n) + Flat([]);
    var fa, fb, fn := Flat(a), Flat(b), LeafList(n);
    assert Flat(a + ([n] + b)) == fa + (fn + fb);
    assert Flat(a + b) == fa + fb;
    assert multiset(fa + (fn + fb)) == multiset(fa) + multiset(fn) + multiset(fb);
  }

  /** Every node of a heap is a full tree. */
  predicate FullHeap(heap: seq<Node>)
  {
    forall k :: 0 <= k < |heap| ==> Full(heap[k])
  }

  /** No node of the heap is greater than this one under the reversed
      ordering: it has the lowest frequency. */
  predicate Lowest(node: Node, heap: seq<Node>)
  {
    (forall k :: 0 <= k < |heap| ==> Compare(node, heap[k]) != Less) &&
    (forall k :: 0 <= k < |heap| ==> node.frequency <= heap[k].frequency)
  }

  lemma AllFullRemove(heap: seq<Node>, i: nat, rest: seq<Node>)
    requires i < |heap| && rest == heap[..i] + heap[i + 1..]
    requires FullHeap(heap)
    ensures FullHeap(rest)
  {
    forall k | 0 <= k < |rest| ensures Full(rest[k]) {
      if k < i {
        assert rest[k] == heap[k];
      } else {
        assert rest[k] == heap[k + 1];
      }
    }
  }

  /** `BinaryHeap::pop` under the reversed ordering: a node no other node of
      the heap is greater than, that is one of lowest frequency, and the
      heap without it. */
  method PopLowest(heap: seq<Node>) returns (node: Node, rest: seq<Node>, ghost i: nat)
    requires |heap| > 0
    ensures i < |heap| && node == heap[i] && rest == heap[..i] + heap[i + 1..]
    ensures Lowest(node, heap)
  {
    var best := 0;
    for k := 1 to |heap|
      invariant best < k
      invariant forall j :: 0 <= j < k ==> heap[best].frequency <= heap[j].frequency
    {
      if Compare(heap[k], heap[best]) == Greater {
        best := k;
      }
    }
    node, rest, i := heap[best], heap[..best] + heap[best + 1..], best;
  }

  /** The entries of a table in some order, each once: `HashMap::into_iter`. */
  predicate Enumerates(order: seq<(char, nat)>, table: map<char, nat>)
  {
    |order| == |table| &&
    (forall i :: 0 <= i < |order| ==> order[i].0 in table && table[order[i].0] == order[i].1) &&
    (forall c :: c in table ==> exists i :: 0 <= i < |order| && order[i].0 == c) &&
    (forall i, j :: 0 <= i < j < |order| ==> order[i].0 != order[j].0)
  }

  /** The table's entries in an unspecified order. */
  method Entries(table: map<char, nat>) returns (order: seq<(char, nat)>)
    ensures Enumerates(order, table)
  {
    order := [];
    var left := table.Keys;
    while left != {}
      invariant left <= table.Keys
      invariant |order| + |left| == |table|
      invariant forall i :: 0 <= i < |order| ==> order[i].0 in table.Keys - left && table[order[i].0] == order[i].1
      invariant forall i, j :: 0 <= i < j < |order| ==> order[i].0 != order[j].0
      invariant forall c :: c in table.Keys - left ==> exists i :: 0 <= i < |order| && order[i].0 == c
      decreases |left|
    {
      var c :| c in left;
      ghost var previous := order;
      order := order + [(c, table[c])];
      forall d | d in table.Keys - (left - {c})
        ensures exists i :: 0 <= i < |order| && order[i].0 == d
      {
        if d == c {
          assert order[|order| - 1].0 == d;
        } else {
          assert d in table.Keys - left;
          var i :| 0 <= i < |previous| && previous[i].0 == d;
          assert order[i] == previous[i];
        }
      }
      left := left - {c};
    }
    assert table.Keys - left == table.Keys;
  }

  /** `frequency_table_to_heap`: one leaf per entry. */
  method TableToHeap(table: map<char, nat>) returns (heap: seq<Node>, order: seq<(char, nat)>)
    ensures Enumerates(order, table)
    ensures |heap| == |order|
    ensures forall i :: 0 <= i < |heap| ==> heap[i] == NewLeaf(order[i].0, order[i].1)
  {
    order := Entries(table);
    heap := [];
    for i := 0 to |order|
      invariant |heap| == i
      invariant forall k :: 0 <= k < i ==> heap[k] == NewLeaf(order[k].0, order[k].1)
    {
      heap := heap + [NewLeaf(order[i].0, order[i].1)];
    }
  }

  /** A heap of leaves holds exactly the entries, and weighs their total. */
  lemma {:induction false} LeavesHeap(heap: seq<Node>, order: seq<(char, nat)>)
    requires |heap| == |order|
    requires forall i :: 0 <= i < |heap| ==> heap[i] == NewLeaf(order[i].0, order[i].1)
    ensures Flat(heap) == order && Weight(heap) == Total(order)
    ensures FullHeap(heap)
  {
    if heap != [] {
      LeavesHeap(heap[1..], order[1..]);
      assert order == [order[0]] + order[1..];
    }
  }

  /** The node over two popped nodes, pushed back: the heap keeps the
      leaves and the weight of the two. */
  lemma PushMerged(heap: seq<Node>, left: Node, right: Node)
    requires Full(left) && Full(right) && left.frequency <= right.frequency
    requires FullHeap(heap)
    ensures NewNode(Some(left), Some(right)).Some?
    ensures var merged := heap + [NewNode(Some(left), Some(right)).value];
            (forall k :: 0 <= k < |merged| ==> Full(merged[k])) &&
            multiset(Flat(merged)) == multiset(Flat(heap)) + multiset(LeafList(left)) + multiset(LeafList(right)) &&
            Weight(merged) == Weight(heap) + left.frequency + right.frequency
  {
    var head := NewNode(Some(left), Some(right)).value;
    assert Full(head);
    assert LeafList(head) == LeafList(left) + LeafList(right);
    FlatConcat(heap, [head]);
    assert Flat([head]) == LeafList(head) + Flat([]);
    WeightConcat(heap, [head]);
  }

  /** The node popped second is not lower than the one popped first. */
  lemma SecondNotLower(heap: seq<Node>, i: nat, heap1: seq<Node>, j: nat)
    requires i < |heap| && heap1 == heap[..i] + heap[i + 1..] && j < |heap1|
    requires Lowest(heap[i], heap)
    ensures heap[i].frequency <= heap1[j].frequency
  {
    if j < i {
      assert heap1[j] == heap[j];
    } else {
      assert heap1[j] == heap[j + 1];
    }
  }

  // ---------------------------------------------------------------------
  // The greedy choice

  /** A node of the bag that no node of the bag undercuts in frequency. */
  predicate LowestIn(node: Node, bag: multiset<Node>)
  {
    node in bag && forall x :: x in bag ==> node.frequency <= x.frequency
  }

  /** One turn of the loop of `build_tree`, on the contents of the heap:
      the lowest node and then the lowest of the rest leave, and the node
      over them, the first on the left, comes in. */
  predicate GreedyStep(bag: multiset<Node>, left: Node, right: Node, next: multiset<Node>)
  {
    LowestIn(left, bag) && LowestIn(right, bag - multiset{left}) &&
    next == bag - multiset{left} - multiset{right} + multiset{NewNode(Some(left), Some(right)).value}
  }

  /** A run of that loop: each bag is one greedy step after the one before,
      merging the pair recorded for that step. */
  predicate GreedyRun(bags: seq<multiset<Node>>, merges: seq<(Node, Node)>)
  {
    |bags| == |merges| + 1 &&
    forall k :: 0 <= k < |merges| ==> GreedyStep(bags[k], merges[k].0, merges[k].1, bags[k + 1])
  }

  /** The leaves `frequency_table_to_heap` makes of a table, as a bag. */
  function LeafBag(table: map<char, nat>): multiset<Node>
  {
    multiset(set c | c in table :: NewLeaf(c, table[c]))
  }

  /** A node that is `Lowest` in a heap is `LowestIn` its contents. */
  lemma LowestBag(heap: seq<Node>, i: nat)
    requires i < |heap| && Lowest(heap[i], heap)
    ensures LowestIn(heap[i], multiset(heap))
  {
    forall x | x in multiset(heap) ensures heap[i].frequency <= x.frequency {
      var k :| 0 <= k < |heap| && heap[k] == x;
    }
  }

  /** Removing the node at i removes one copy of it from the contents. */
  lemma WithoutBag(heap: seq<Node>, i: nat)
    requires i < |heap|
    ensures multiset(heap[..i] + heap[i + 1..]) == multiset(heap) - multiset{heap[i]}
  {
    assert heap == heap[..i] + [heap[i]] + heap[i + 1..];
  }

  /** One turn of the loop of `build_tree`: pop the two lowest nodes, and
      push a node over them, the first popped on the left. The heap shrinks
      by one, keeps its leaves and its weight, and its contents take one
      greedy step merging `left` and `right`. */
  method MergeLowest(heap: seq<Node>) returns (merged: seq<Node>, ghost left: Node, ghost right: Node)
    requires |heap| > 1
    requires FullHeap(heap)
    ensures |merged| == |heap| - 1
    ensures FullHeap(merged)
    ensures multiset(Flat(merged)) == multiset(Flat(heap))
    ensures Weight(merged) == Weight(heap)
    ensures GreedyStep(multiset(heap), left, right, multiset(merged))
  {
    var first, heap1, i := PopLowest(heap);
    RemoveAt(heap, i);
    AllFullRemove(heap, i, heap1);
    var second, heap2, j := PopLowest(heap1);
    RemoveAt(heap1, j);
    AllFullRemove(heap1, j, heap2);
    SecondNotLower(heap, i, heap1, j);
    PushMerged(heap2, first, second);
    Shuffle(multiset(Flat(heap2)), multiset(LeafList(first)), multiset(LeafList(second)));
    var head := NewNode(Some(first), Some(second));
    merged := heap2 + [head.value];
    left, right := first, second;
    GreedyPops(heap, i, heap1, j, heap2);
  }

  /** Popping the lowest node twice and pushing the node over the two is a
      greedy step on the heap's contents. */
  lemma GreedyPops(heap: seq<Node>, i: nat, heap1: seq<Node>, j: nat, heap2: seq<Node>)
    requires i < |heap| && heap1 == heap[..i] + heap[i + 1..] && Lowest(heap[i], heap)
    requires j < |heap1| && heap2 == heap1[..j] + heap1[j + 1..] && Lowest(heap1[j], heap1)
    ensures GreedyStep(multiset(heap), heap[i], heap1[j], multiset(heap2 + [NewNode(Some(heap[i]), Some(heap1[j])).value]))
  {
    LowestBag(heap, i);
    WithoutBag(heap, i);
    LowestBag(heap1, j);
    WithoutBag(heap1, j);
  }

  lemma Shuffle(a: multiset<(char, nat)>, b: multiset<(char, nat)>, c: multiset<(char, nat)>)
    ensures a + b + c == a + c + b
  {
  }

  /** `build_tree`: an error for an empty table, the lone leaf for a single
      entry, and otherwise the merged tree, whose leaves are exactly the
      table's entries and whose root weighs their total. */
  method BuildTree(frequencies: map<char, nat>)
    returns (r: Result<Node>, ghost order: seq<(char, nat)>, ghost bags: seq<multiset<Node>>, ghost merges: seq<(Node, Node)>)
    ensures Enumerates(order, frequencies)
    ensures r.Err? <==> |frequencies| == 0
    ensures |frequencies| == 1 ==> r == Ok(NewLeaf(order[0].0, order[0].1))
    ensures r.Ok? ==> Full(r.value)
    ensures r.Ok? ==> multiset(LeafList(r.value)) == multiset(order)
    ensures r.Ok? ==> r.value.frequency == Total(order)
    ensures r.Ok? ==> GreedyRun(bags, merges) && bags[0] == LeafBag(frequencies) && bags[|bags| - 1] == multiset{r.value}
  {
    if |frequencies| == 0 {
      order, bags, merges := [], [], [];
      return Err("Empty frequency table"), order, bags, merges;
    }
    if |frequencies| == 1 {
      var entries := Entries(frequencies);
      order := entries;
      var leaf := NewLeaf(entries[0].0, entries[0].1);
      OneEntryRun(order, frequencies, leaf);
      r := Ok(leaf);
      bags, merges := [multiset{leaf}], [];
      return;
    }
    var heap, entries := TableToHeap(frequencies);
    order := entries;
    LeavesHeap(heap, order);
    LeafHeapBag(heap, order, frequencies);
    var root;
    root, bags, merges := MergeAll(heap);
    r := Ok(root);
  }

  /** The loop of `build_tree`: merge the two lowest nodes until one is
      left. The last node is a full tree over all the leaves of the heap,
      weighing what the heap weighs, reached by greedy steps. */
  method MergeAll(heap: seq<Node>) returns (root: Node, ghost bags: seq<multiset<Node>>, ghost merges: seq<(Node, Node)>)
    requires |heap| >= 1
    requires FullHeap(heap)
    ensures Full(root)
    ensures multiset(LeafList(root)) == multiset(Flat(heap))
    ensures root.frequency == Weight(heap)
    ensures GreedyRun(bags, merges) && bags[0] == multiset(heap) && bags[|bags| - 1] == multiset{root}
  {
    var rest := heap;
    bags, merges := [multiset(heap)], [];
    while |rest| > 1
      invariant |rest| >= 1
      invariant FullHeap(rest)
      invariant multiset(Flat(rest)) == multiset(Flat(heap))
      invariant Weight(rest) == Weight(heap)
      invariant GreedyRun(bags, merges) && bags[0] == multiset(heap) && bags[|bags| - 1] == multiset(rest)
      decreases |rest|
    {
      var next, left, right := MergeLowest(rest);
      RunExtends(bags, merges, left, right, multiset(next));
      bags, merges := bags + [multiset(next)], merges + [(left, right)];
      rest := next;
    }
    OneNodeHeap(rest);
    root := rest[0];
    assert rest == [root];
  }

  /** A greedy run followed by one more greedy step is a greedy run. */
  lemma RunExtends(bags: seq<multiset<Node>>, merges: seq<(Node, Node)>, left: Node, right: Node, next: multiset<Node>)
    requires GreedyRun(bags, merges)
    requires GreedyStep(bags[|bags| - 1], left, right, next)
    ensures GreedyRun(bags + [next], merges + [(left, right)])
    ensures (bags + [next])[0] == bags[0]
  {
  }

  /** The heap of leaves of a table's entries holds exactly `LeafBag`. */
  lemma LeafHeapBag(heap: seq<Node>, order: seq<(char, nat)>, table: map<char, nat>)
    requires Enumerates(order, table)
    requires |heap| == |order|
    requires forall i :: 0 <= i < |heap| ==> heap[i] == NewLeaf(order[i].0, order[i].1)
    ensures multiset(heap) == LeafBag(table)
  {
    DistinctBag(heap);
    var leaves := set c | c in table :: NewLeaf(c, table[c]);
    forall x ensures x in heap <==> x in leaves {
      if x in heap {
        var i :| 0 <= i < |heap| && heap[i] == x;
      }
      if x in leaves {
        var c :| c in table && x == NewLeaf(c, table[c]);
        var i :| 0 <= i < |order| && order[i].0 == c;
        assert heap[i] == x;
      }
    }
    assert (set x | x in heap) == leaves;
  }

  /** A sequence without repeats holds each of its elements once. */
  lemma {:induction false} DistinctBag(s: seq<Node>)
    requires forall i, j :: 0 <= i < j < |s| ==> s[i] != s[j]
    ensures multiset(s) == multiset(set x | x in s)
  {
    if s != [] {
      DistinctBag(s[1..]);
      assert s == [s[0]] + s[1..];
      assert s[0] !in s[1..];
      assert (set x | x in s) == {s[0]} + (set x | x in s[1..]);
    }
  }

  /** A table of one entry yields one leaf and a greedy run of no steps. */
  lemma OneEntryRun(order: seq<(char, nat)>, table: map<char, nat>, leaf: Node)
    requires Enumerates(order, table) && |order| == 1
    requires leaf == NewLeaf(order[0].0, order[0].1)
    ensures Full(leaf) && multiset(LeafList(leaf)) == multiset(order) && leaf.frequency == Total(order)
    ensures LeafBag(table) == multiset{leaf}
  {
    OneEntryTotal(order);
    LeafHeapBag([leaf], order, table);
    assert order == [order[0]];
  }

  lemma OneEntryTotal(order: seq<(char, nat)>)
    requires |order| == 1
    ensures Total(order) == order[0].1
  {
    assert order[1..] == [];
  }

  lemma OneNodeHeap(heap: seq<Node>)
    requires |heap| == 1
    ensures Flat(heap) == LeafList(heap[0]) && Weight(heap) == heap[0].frequency
  {
    assert heap[1..] == [];
    assert LeafList(heap[0]) + [] == LeafList(heap[0]);
  }

  /** On a bag of distinct nodes `s`, when `a` is the single lowest node
      and `b` the single lowest of the rest, a greedy step merges `a` and
      `b`, and the nodes left are again distinct. */
  lemma StepFrom(s: set<Node>, left: Node, right: Node, next: multiset<Node>, a: Node, b: Node)
    requires GreedyStep(multiset(s), left, right, next)
    requires a in s && forall x :: x in s && x != a ==> a.frequency < x.frequency
    requires b in s && b != a && forall x :: x in s && x != a && x != b ==> b.frequency < x.frequency
    requires NewNode(Some(a), Some(b)).value !in s
    ensures left == a && right == b
    ensures next == multiset(s - {a, b} + {NewNode(Some(a), Some(b)).value})
  {
    assert left == a by {
      assert left in s;
    }
    assert right == b by {
      assert right in s && right != a;
    }
    var n := NewNode(Some(a), Some(b)).value;
    forall x ensures next[x] == multiset(s - {a, b} + {n})[x] {
    }
  }

  /** The frequency table of the opendsa unit tests. */
  const OpendsaTable: map<char, nat> := map['c' := 32, 'd' := 42, 'e' := 120, 'k' := 7, 'l' := 43, 'm' := 24, 'u' := 37, 'z' := 2]

  // The nodes of the tree the opendsa test expects, named by frequency.
  const LeafZ := NewLeaf('z', 2)
  const LeafK := NewLeaf('k', 7)
  const LeafM := NewLeaf('m', 24)
  const LeafC := NewLeaf('c', 32)
  const LeafU := NewLeaf('u', 37)
  const LeafD := NewLeaf('d', 42)
  const LeafL := NewLeaf('l', 43)
  const LeafE := NewLeaf('e', 120)
  const Node9 := Node(Some(LeafZ), Some(LeafK), None, 9)
  const Node33 := Node(Some(Node9), Some(LeafM), None, 33)
  const Node65 := Node(Some(LeafC), Some(Node33), None, 65)
  const Node79 := Node(Some(LeafU), Some(LeafD), None, 79)
  const Node108 := Node(Some(LeafL), Some(Node65), None, 108)
  const Node187 := Node(Some(Node79), Some(Node108), None, 187)

  /** The expected tree: `e` beside a node of 187 over (`u`, `d`) and
      (`l`, (`c`, ((`z`, `k`), `m`))). */
  const OpendsaRoot := Node(Some(LeafE), Some(Node187), None, 307)

  lemma OpendsaLeaves()
    ensures LeafBag(OpendsaTable) == multiset({LeafZ, LeafK, LeafM, LeafC, LeafU, LeafD, LeafL, LeafE})
  {
    var t := OpendsaTable;
    var leaves := set c | c in t :: NewLeaf(c, t[c]);
    var expected := {LeafZ, LeafK, LeafM, LeafC, LeafU, LeafD, LeafL, LeafE};
    forall x | x in leaves ensures x in expected {
      var c :| c in t && x == NewLeaf(c, t[c]);
    }
    forall x | x in expected ensures x in leaves {
      var c := x.value.value;
      assert c in t && x == NewLeaf(c, t[c]);
    }
    assert leaves == expected;
  }

  /** A bag holding two different nodes is not the last of a run that ends
      with one node. */
  lemma Continues(bags: seq<multiset<Node>>, root: Node, k: nat, a: Node, b: Node)
    requires k < |bags| && bags[|bags| - 1] == multiset{root}
    requires a in bags[k] && b in bags[k] && a != b
    ensures k + 1 < |bags|
  {
  }

  /** Step k of a run that ends with one node, from a bag of distinct
      nodes `s` with a single lowest node `a` and a single lowest `b` of the
      rest: it merges `a` and `b` into `n` and leaves `t`. */
  lemma RunStep(bags: seq<multiset<Node>>, merges: seq<(Node, Node)>, root: Node, k: nat,
                s: set<Node>, a: Node, b: Node, n: Node, t: set<Node>)
    requires GreedyRun(bags, merges) && k < |bags| && bags[k] == multiset(s) && bags[|bags| - 1] == multiset{root}
    requires a in s && forall x :: x in s && x != a ==> a.frequency < x.frequency
    requires b in s && b != a && forall x :: x in s && x != a && x != b ==> b.frequency < x.frequency
    requires n == Node(Some(a), Some(b), None, a.frequency + b.frequency) && n !in s
    requires t == s - {a, b} + {n}
    ensures k < |merges| && merges[k] == (a, b) && bags[k + 1] == multiset(t)
  {
    Continues(bags, root, k, a, b);
    StepFrom(s, merges[k].0, merges[k].1, bags[k + 1], a, b);
  }

  /** The opendsa test of `build_tree` (distinct frequencies, so no tie at
      any step): every greedy run from its leaves takes seven steps and
      ends in the expected tree. */
  lemma OpendsaGreedy(bags: seq<multiset<Node>>, merges: seq<(Node, Node)>, root: Node)
    requires GreedyRun(bags, merges) && bags[0] == LeafBag(OpendsaTable) && bags[|bags| - 1] == multiset{root}
    ensures |merges| == 7
    ensures root == OpendsaRoot
  {
    OpendsaLeaves();
    var s1 := {Node9, LeafM, LeafC, LeafU, LeafD, LeafL, LeafE};
    RunStep(bags, merges, root, 0, {LeafZ, LeafK, LeafM, LeafC, LeafU, LeafD, LeafL, LeafE}, LeafZ, LeafK, Node9, s1);
    OpendsaRun1(bags, merges, root);
  }

  /** The rest of that run, from the bag after each step. */
  lemma OpendsaRun1(bags: seq<multiset<Node>>, merges: seq<(Node, Node)>, root: Node)
    requires GreedyRun(bags, merges) && 1 < |bags| && bags[|bags| - 1] == multiset{root}
    requires bags[1] == multiset({Node9, LeafM, LeafC, LeafU, LeafD, LeafL, LeafE})
    ensures |merges| == 7 && root == OpendsaRoot
  {
    var s := {Node9, LeafM, LeafC, LeafU, LeafD, LeafL, LeafE};
    RunStep(bags, merges, root, 1, s, Node9, LeafM, Node33, {Node33, LeafC, LeafU, LeafD, LeafL, LeafE});
    OpendsaRun2(bags, merges, root);
  }

  lemma OpendsaRun2(bags: seq<multiset<Node>>, merges: seq<(Node, Node)>, root: Node)
    requires GreedyRun(bags, merges) && 2 < |bags| && bags[|bags| - 1] == multiset{root}
    requires bags[2] == multiset({Node33, LeafC, LeafU, LeafD, LeafL, LeafE})
    ensures |merges| == 7 && root == OpendsaRoot
  {
    var s := {Node33, LeafC, LeafU, LeafD, LeafL, LeafE};
    RunStep(bags, merges, root, 2, s, LeafC, Node33, Node65, {Node65, LeafU, LeafD, LeafL, LeafE});
    OpendsaRun3(bags, merges, root);
  }

  lemma OpendsaRun3(bags: seq<multiset<Node>>, merges: seq<(Node, Node)>, root: Node)
    requires GreedyRun(bags, merges) && 3 < |bags| && bags[|bags| - 1] == multiset{root}
    requires bags[3] == multiset({Node65, LeafU, LeafD, LeafL, LeafE})
    ensures |merges| == 7 && root == OpendsaRoot
  {
    var s := {Node65, LeafU, LeafD, LeafL, LeafE};
    RunStep(bags, merges, root, 3, s, LeafU, LeafD, Node79, {Node65, Node79, LeafL, LeafE});
    OpendsaRun4(bags, merges, root);
  }

  lemma OpendsaRun4(bags: seq<multiset<Node>>, merges: seq<(Node, Node)>, root: Node)
    requires GreedyRun(bags, merges) && 4 < |bags| && bags[|bags| - 1] == multiset{root}
    requires bags[4] == multiset({Node65, Node79, LeafL, LeafE})
    ensures |merges| == 7 && root == OpendsaRoot
  {
    var s := {Node65, Node79, LeafL, LeafE};
    RunStep(bags, merges, root, 4, s, LeafL, Node65, Node108, {Node79, Node108, LeafE});
    OpendsaRun5(bags, merges, root);
  }

  lemma OpendsaRun5(bags: seq<multiset<Node>>, merges: seq<(Node, Node)>, root: Node)
    requires GreedyRun(bags, merges) && 5 < |bags| && bags[|bags| - 1] == multiset{root}
    requires bags[5] == multiset({Node79, Node108, LeafE})
    ensures |merges| == 7 && root == OpendsaRoot
  {
    var s := {Node79, Node108, LeafE};
    RunStep(bags, merges, root, 5, s, Node79, Node108, Node187, {Node187, LeafE});
    OpendsaRun6(bags, merges, root);
  }

  lemma OpendsaRun6(bags: seq<multiset<Node>>, merges: seq<(Node, Node)>, root: Node)
    requires GreedyRun(bags, merges) && 6 < |bags| && bags[|bags| - 1] == multiset{root}
    requires bags[6] == multiset({Node187, LeafE})
    ensures |merges| == 7 && root == OpendsaRoot
  {
    RunStep(bags, merges, root, 6, {Node187, LeafE}, LeafE, Node187, OpendsaRoot, {OpendsaRoot});
    LastStep(bags, merges, 7, OpendsaRoot);
    assert root in multiset{root};
  }

  /** A run that reaches a bag of one node stops there. */
  lemma LastStep(bags: seq<multiset<Node>>, merges: seq<(Node, Node)>, k: nat, n: Node)
    requires GreedyRun(bags, merges) && k < |bags| && bags[k] == multiset({n})
    ensures k == |merges|
  {
    if k < |merges| {
      StepNeedsTwo(bags[k], merges[k].0, merges[k].1, bags[k + 1]);
      assert false;
    }
  }

  /** A greedy step needs two nodes. */
  lemma StepNeedsTwo(bag: multiset<Node>, left: Node, right: Node, next: multiset<Node>)
    requires GreedyStep(bag, left, right, next)
    ensures |bag| >= 2
  {
    assert bag == bag - multiset{left} + multiset{left};
    assert |bag - multiset{left}| >= 1;
  }

  /** The leaves of a tree built from a table are the table's entries:
      every leaf carries a table character with its frequency, and every
      table character has a leaf. */
  lemma LeavesAreTable(root: Node, order: seq<(char, nat)>, table: map<char, nat>)
    requires multiset(LeafList(root)) == multiset(order) && Enumerates(order, table)
    ensures forall p :: p in LeafList(root) ==> p.0 in table && table[p.0] == p.1
    ensures forall c :: c in table ==> (c, table[c]) in LeafList(root)
  {
    forall p | p in LeafList(root) ensures p.0 in table && table[p.0] == p.1 {
      assert p in multiset(LeafList(root));
      assert p in multiset(order);
      var i :| 0 <= i < |order| && order[i] == p;
    }
    forall c | c in table ensures (c, table[c]) in LeafList(root) {
      var i :| 0 <= i < |order| && order[i].0 == c;
      assert order[i] == (c, table[c]);
      assert order[i] in multiset(order);
      assert (c, table[c]) in multiset(LeafList(root));
    }
  }

  /** The two-character unit test: with frequencies a:3 and b:2, every tree
      with these properties, whatever the heap's tie policy, has the lighter
      b on the left and a on the right under a root of weight 5. */
  lemma TwoLeafTree(root: Node)
    requires Full(root)
    requires multiset(LeafList(root)) == multiset{('a', 3), ('b', 2)}
    ensures root == Node(Some(NewLeaf('b', 2)), Some(NewLeaf('a', 3)), None, 5)
  {
    assert |LeafList(root)| == 2;
    assert root.value.None?;
    var l, r := root.left.value, root.right.value;
    FullWeight(l);
    FullWeight(r);
    assert LeafList(root) == LeafList(l) + LeafList(r);
    LeafOfOne(l);
    LeafOfOne(r);
    assert multiset(LeafList(root)) == multiset{(l.value.value, l.frequency), (r.value.value, r.frequency)};
  }

  /** A full tree with a single leaf is that leaf. */
  lemma LeafOfOne(n: Node)
    requires Full(n) && |LeafList(n)| == 1
    ensures n.value.Some? && n == NewLeaf(n.value.value, n.frequency)
    ensures LeafList(n) == [(n.value.value, n.frequency)]
  {
    if n.value.None? {
      FullWeight(n.left.value);
      FullWeight(n.right.value);
    }
  }
}
