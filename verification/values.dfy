/** `JS_value_to_address` and `address_to_JS_value`: the conversions between
    JavaScript values and heap words that the machines use for literals,
    operator results and output. */
module Values {
  import opened Wrappers
  import opened Heap
  import opened Allocator
  import opened Collector
  import opened Faults
  import opened JsValues
  import opened Nodes

  /** Booleans, undefined and null map to the canonical literal nodes,
      numbers and pairs to fresh nodes. The head of a pair is converted
      first, then the tail, then the pair is allocated; nothing pins the
      converted head while the rest is allocated. A string has no node. */
  function ToAddress(h: Heap, gc: Gc, roots: seq<int>, lits: Literals, v: JsValue): (r: Result<(Heap, int), Fault>)
    ensures r.Ok? ==> r.value.0.size == h.size && r.value.0.slots.Keys == h.slots.Keys
    ensures r.Err? ==> r.error == NotAValue || r.error == ExhaustedFault(gc)
    ensures v.JStr? ==> r == Err(NotAValue)
    decreases v
  {
    match v
    case JBool(b) => Ok((h, if b then lits.trueNode else lits.falseNode))
    case JNum(n) => AllocateNumber(h, gc, roots, n)
    case JUndefined => Ok((h, lits.undefinedNode))
    case JNull => Ok((h, lits.nullNode))
    case JStr(_) => Err(NotAValue)
    case JPair(hd, tl) =>
      match ToAddress(h, gc, roots, lits, hd)
      case Err(e) => Err(e)
      case Ok((h1, a1)) =>
        match ToAddress(h1, gc, roots, lits, tl)
        case Err(e) => Err(e)
        case Ok((h2, a2)) => AllocatePair(h2, gc, roots, a1, a2)
  }

  /** Reads the value a word stands for. Unassigned, closures, builtins and
      every other node read as marker strings. A pair is read head first;
      `fuel` bounds the nesting (`None` when it runs out). */
  function FromAddress(h: Heap, a: int, fuel: nat): (r: Option<JsValue>)
    ensures !HasTag(h, a, PairTag) ==> r.Some?
    ensures r.Some? && r.value.JPair? ==> HasTag(h, a, PairTag)
    ensures !IsNode(h, a) ==> r == Some(JStr("unknown word tag"))
    decreases fuel
  {
    if HasTag(h, a, TrueTag) then Some(JBool(true))
    else if HasTag(h, a, FalseTag) then Some(JBool(false))
    else if HasTag(h, a, NumberTag) then Some(JNum(Child(h, a, 0)))
    else if HasTag(h, a, UndefinedTag) then Some(JUndefined)
    else if HasTag(h, a, UnassignedTag) then Some(JStr("<unassigned>"))
    else if HasTag(h, a, NullTag) then Some(JNull)
    else if HasTag(h, a, PairTag) then
      if fuel == 0 then None
      else
        var x :- FromAddress(h, Child(h, a, 0), fuel - 1);
        var y :- FromAddress(h, Child(h, a, 1), fuel - 1);
        Some(JPair(x, y))
    else if HasTag(h, a, ClosureTag) then Some(JStr("<closure>"))
    else if HasTag(h, a, BuiltinTag) then Some(JStr("<builtin>"))
    else Some(JStr("unknown word tag"))
  }

  /** The values that have a node: no strings anywhere inside. */
  predicate Storable(v: JsValue) {
    match v
    case JStr(_) => false
    case JPair(hd, tl) => Storable(hd) && Storable(tl)
    case _ => true
  }

  /** How many fresh nodes converting `v` allocates. */
  function NodesNeeded(v: JsValue): nat {
    match v
    case JNum(_) => 1
    case JPair(hd, tl) => 1 + NodesNeeded(hd) + NodesNeeded(tl)
    case _ => 0
  }

  /** How deeply pairs nest in `v`. */
  function Depth(v: JsValue): nat {
    match v
    case JPair(hd, tl) => 1 + (if Depth(hd) < Depth(tl) then Depth(tl) else Depth(hd))
    case _ => 0
  }

  /** The node at `a` holds `v`: the literal node of its kind, a number node
      holding it, or a pair node whose two children hold its parts. */
  ghost predicate Represents(h: Heap, a: int, v: JsValue)
    decreases v
  {
    match v
    case JBool(b) => HasTag(h, a, if b then TrueTag else FalseTag)
    case JNum(n) => HasTag(h, a, NumberTag) && Child(h, a, 0) == n
    case JUndefined => HasTag(h, a, UndefinedTag)
    case JNull => HasTag(h, a, NullTag)
    case JStr(_) => false
    case JPair(hd, tl) =>
      && HasTag(h, a, PairTag)
      && Represents(h, Child(h, a, 0), hd)
      && Represents(h, Child(h, a, 1), tl)
  }

  /** What a node represents depends only on the nodes, so it survives
      anything that keeps them. */
  lemma {:induction false} RepresentsKept(h: Heap, h': Heap, a: int, v: JsValue)
    requires Represents(h, a, v) && NodesKept(h, h')
    ensures Represents(h', a, v)
    decreases v
  {
    match v
    case JPair(hd, tl) =>
      RepresentsKept(h, h', Child(h, a, 0), hd);
      RepresentsKept(h, h', Child(h, a, 1), tl);
    case _ =>
  }

  /** Reading a node that represents `v`, with fuel for its nesting, gives
      back `v`. */
  lemma {:induction false} FromRepresented(h: Heap, a: int, v: JsValue, fuel: nat)
    requires Represents(h, a, v) && Depth(v) <= fuel
    ensures FromAddress(h, a, fuel) == Some(v)
    decreases v
  {
    if v.JPair? {
      FromRepresented(h, Child(h, a, 0), v.hd, fuel - 1);
      FromRepresented(h, Child(h, a, 1), v.tl, fuel - 1);
      FromPairNode(h, a, v.hd, v.tl, fuel);
    } else {
      FromLeaf(h, a, v, fuel);
    }
  }

  lemma FromLeaf(h: Heap, a: int, v: JsValue, fuel: nat)
    requires Represents(h, a, v) && !v.JPair?
    ensures FromAddress(h, a, fuel) == Some(v)
  {
  }

  lemma FromPairNode(h: Heap, a: int, hd: JsValue, tl: JsValue, fuel: nat)
    requires HasTag(h, a, PairTag) && fuel > 0
    requires FromAddress(h, Child(h, a, 0), fuel - 1) == Some(hd)
    requires FromAddress(h, Child(h, a, 1), fuel - 1) == Some(tl)
    ensures FromAddress(h, a, fuel) == Some(JPair(hd, tl))
  {
  }

  /** `h'` is what converting `v` in `h` left behind when the free list
      then held `ys`: well formed, with the node at `a` representing `v`
      and every older node kept. */
  ghost predicate Converted(h: Heap, h': Heap, a: int, v: JsValue, ys: seq<int>) {
    && WellFormed(h')
    && Represents(h', a, v)
    && NodesKept(h, h')
    && IsFreeList(h', h'.free, ys)
  }

  /** The round trip: with enough slots on the free list for the nodes a
      storable value needs, converting it to a word and reading the word
      back gives the value. */
  lemma RoundTrip(h: Heap, gc: Gc, roots: seq<int>, lits: Literals, v: JsValue, xs: seq<int>)
    requires WellFormed(h) && ValidLiterals(h, lits) && IsFreeList(h, h.free, xs)
    requires Storable(v) && NodesNeeded(v) <= |xs|
    ensures ToAddress(h, gc, roots, lits, v).Ok?
    ensures FromAddress(ToAddress(h, gc, roots, lits, v).value.0, ToAddress(h, gc, roots, lits, v).value.1, Depth(v)) == Some(v)
  {
    ToAddressRepresents(h, gc, roots, lits, v, xs);
    var r := Conversion(h, gc, roots, lits, v).value;
    FromRepresented(r.0, r.1, v, Depth(v));
  }

  /** `ToAddress` under a non-recursive name. The lemmas below are stated
      through it, so that their goals do not unfold the conversion of the
      parts of a pair. */
  ghost function Conversion(h: Heap, gc: Gc, roots: seq<int>, lits: Literals, v: JsValue): Result<(Heap, int), Fault> {
    ToAddress(h, gc, roots, lits, v)
  }

  /** With enough slots on the free list for the nodes a storable value
      needs, converting it runs no collection and yields a node that
      represents the value; every existing node is kept and the slots used
      are the first ones of the list. */
  lemma {:induction false} ToAddressRepresents(h: Heap, gc: Gc, roots: seq<int>, lits: Literals, v: JsValue, xs: seq<int>)
    requires WellFormed(h) && ValidLiterals(h, lits) && IsFreeList(h, h.free, xs)
    requires Storable(v) && NodesNeeded(v) <= |xs|
    ensures Conversion(h, gc, roots, lits, v).Ok?
    ensures Converted(h, Conversion(h, gc, roots, lits, v).value.0, Conversion(h, gc, roots, lits, v).value.1, v, xs[NodesNeeded(v)..])
    decreases v, 1
  {
    if v.JPair? {
      PairRepresents(h, gc, roots, lits, v, xs);
    } else {
      LeafConverted(h, gc, roots, lits, v, xs);
    }
  }

  /** `ToAddressRepresents` for a value that is not a pair. */
  lemma LeafConverted(h: Heap, gc: Gc, roots: seq<int>, lits: Literals, v: JsValue, xs: seq<int>)
    requires WellFormed(h) && ValidLiterals(h, lits) && IsFreeList(h, h.free, xs)
    requires Storable(v) && NodesNeeded(v) <= |xs| && !v.JPair?
    ensures Conversion(h, gc, roots, lits, v).Ok?
    ensures Converted(h, Conversion(h, gc, roots, lits, v).value.0, Conversion(h, gc, roots, lits, v).value.1, v, xs[NodesNeeded(v)..])
  {
    if v.JNum? {
      NumberRepresents(h, gc, roots, lits, v.n, xs);
    } else {
      assert xs[NodesNeeded(v)..] == xs;
      LiteralRepresents(h, gc, roots, lits, v, xs);
    }
  }

  /** Booleans, undefined and null convert to their literal nodes and
      leave the heap as it was. */
  lemma LiteralRepresents(h: Heap, gc: Gc, roots: seq<int>, lits: Literals, v: JsValue, xs: seq<int>)
    requires WellFormed(h) && ValidLiterals(h, lits) && IsFreeList(h, h.free, xs)
    requires v.JBool? || v.JUndefined? || v.JNull?
    ensures Conversion(h, gc, roots, lits, v) == Ok((h, Conversion(h, gc, roots, lits, v).value.1))
    ensures Converted(h, h, Conversion(h, gc, roots, lits, v).value.1, v, xs)
  {
  }

  lemma NumberRepresents(h: Heap, gc: Gc, roots: seq<int>, lits: Literals, n: int, xs: seq<int>)
    requires WellFormed(h) && IsFreeList(h, h.free, xs) && xs != []
    ensures Conversion(h, gc, roots, lits, JNum(n)).Ok?
    ensures Converted(h, Conversion(h, gc, roots, lits, JNum(n)).value.0, Conversion(h, gc, roots, lits, JNum(n)).value.1, JNum(n), xs[1..])
  {
    AllocateWithFromList(h, gc, roots, NumberTag, 2, [n], xs);
  }

  lemma {:induction false} PairRepresents(h: Heap, gc: Gc, roots: seq<int>, lits: Literals, v: JsValue, xs: seq<int>)
    requires WellFormed(h) && ValidLiterals(h, lits) && IsFreeList(h, h.free, xs)
    requires v.JPair? && Storable(v) && NodesNeeded(v) <= |xs|
    ensures Conversion(h, gc, roots, lits, v).Ok?
    ensures Converted(h, Conversion(h, gc, roots, lits, v).value.0, Conversion(h, gc, roots, lits, v).value.1, v, xs[NodesNeeded(v)..])
    decreases v, 0
  {
    var n1, n2 := NodesNeeded(v.hd), NodesNeeded(v.tl);
    var c := Conversion(h, gc, roots, lits, v);
    assert c.Ok? && Converted(h, c.value.0, c.value.1, v, xs[NodesNeeded(v)..]) by {
      ToAddressRepresents(h, gc, roots, lits, v.hd, xs);
      var p := Conversion(h, gc, roots, lits, v.hd).value;
      ValidLiteralsKept(h, p.0, lits);
      ToAddressRepresents(p.0, gc, roots, lits, v.tl, xs[n1..]);
      var q := Conversion(p.0, gc, roots, lits, v.tl).value;
      ToAddressPairSteps(h, gc, roots, lits, v.hd, v.tl);
      PairConverted(h, p.0, p.1, q.0, q.1, gc, roots, v.hd, v.tl, xs, n1, n2);
      ConvertedSame(h, AllocatePair(q.0, gc, roots, p.1, q.1), c, v, xs[1 + n1 + n2..]);
    }
  }

  lemma ConvertedSame(h: Heap, r: Result<(Heap, int), Fault>, c: Result<(Heap, int), Fault>, v: JsValue, ys: seq<int>)
    requires r.Ok? && Converted(h, r.value.0, r.value.1, v, ys) && c == r
    ensures c.Ok? && Converted(h, c.value.0, c.value.1, v, ys)
  {
  }

  /** The head and then the tail converted; allocating the pair node on
      top completes the conversion of the pair. */
  lemma PairConverted(h: Heap, h1: Heap, a1: int, h2: Heap, a2: int, gc: Gc, roots: seq<int>,
                      hd: JsValue, tl: JsValue, xs: seq<int>, n1: nat, n2: nat)
    requires n1 + n2 + 1 <= |xs|
    requires Converted(h, h1, a1, hd, xs[n1..]) && Converted(h1, h2, a2, tl, xs[n1..][n2..])
    ensures AllocatePair(h2, gc, roots, a1, a2).Ok?
    ensures Converted(h, AllocatePair(h2, gc, roots, a1, a2).value.0, AllocatePair(h2, gc, roots, a1, a2).value.1,
                      JPair(hd, tl), xs[1 + n1 + n2..])
  {
    DropDrop(xs, n1, n2);
    var zs := xs[n1 + n2..];
    AllocatePairFromList(h2, gc, roots, a1, a2, zs);
    var (h4, a) := AllocatePair(h2, gc, roots, a1, a2).value;
    DropDrop(xs, n1 + n2, 1);
    RepresentsKept(h1, h2, a1, hd);
    PairNodeRepresents(h2, h4, a, a1, a2, hd, tl);
    NodesKeptTransitive(h, h1, h2);
    NodesKeptTransitive(h, h2, h4);
  }

  /** A fresh pair node whose words are the addresses of `hd` and `tl`
      represents the pair. */
  lemma PairNodeRepresents(h: Heap, h': Heap, a: int, a1: int, a2: int, hd: JsValue, tl: JsValue)
    requires Represents(h, a1, hd) && Represents(h, a2, tl) && NodesKept(h, h')
    requires HasTag(h', a, PairTag) && Child(h', a, 0) == a1 && Child(h', a, 1) == a2
    ensures Represents(h', a, JPair(hd, tl))
  {
    RepresentsKept(h, h', a1, hd);
    RepresentsKept(h, h', a2, tl);
  }

  lemma NodesKeptTransitive(h: Heap, h': Heap, h'': Heap)
    requires NodesKept(h, h') && NodesKept(h', h'')
    ensures NodesKept(h, h'')
  {
  }

  lemma ToAddressPairSteps(h: Heap, gc: Gc, roots: seq<int>, lits: Literals, hd: JsValue, tl: JsValue)
    requires Conversion(h, gc, roots, lits, hd).Ok?
    requires Conversion(Conversion(h, gc, roots, lits, hd).value.0, gc, roots, lits, tl).Ok?
    ensures var p := Conversion(h, gc, roots, lits, hd).value;
            var q := Conversion(p.0, gc, roots, lits, tl).value;
            Conversion(h, gc, roots, lits, JPair(hd, tl)) == AllocatePair(q.0, gc, roots, p.1, q.1)
  {
  }

  lemma AllocatePairFromList(h: Heap, gc: Gc, roots: seq<int>, a1: int, a2: int, zs: seq<int>)
    requires WellFormed(h) && IsFreeList(h, h.free, zs) && zs != []
    ensures AllocatePair(h, gc, roots, a1, a2).Ok?
    ensures var (h', a) := AllocatePair(h, gc, roots, a1, a2).value;
            && WellFormed(h') && NodesKept(h, h') && IsFreeList(h', h'.free, zs[1..])
            && HasTag(h', a, PairTag) && Child(h', a, 0) == a1 && Child(h', a, 1) == a2
  {
    AllocateWithFromList(h, gc, roots, PairTag, 3, [a1, a2], zs);
  }

  lemma DropDrop(xs: seq<int>, m: nat, n: nat)
    requires m + n <= |xs|
    ensures xs[m..][n..] == xs[m + n..]
  {
  }

  lemma ValidLiteralsKept(h: Heap, h': Heap, lits: Literals)
    requires ValidLiterals(h, lits) && NodesKept(h, h')
    ensures ValidLiterals(h', lits)
  {
  }

  /** A root word that is JavaScript `undefined` turns the canonical False
      into True in the source: before marking, slot 0 reads as false, after
      it as true, and it stays so, since slot 0 lies below the bottom. The
      model's Mark skips the word and leaves slot 0 reading false. */
  lemma UndefinedRootReadsFalseAsTrue(h: Heap)
    requires WellFormed(h) && HasTag(h, 0, FalseTag)
    ensures FromAddress(h, 0, 0) == Some(JBool(false))
    ensures FromAddress(MarkRootAsWritten(h, NoValue), 0, 0) == Some(JBool(true))
    ensures FromAddress(Mark(h, NoValue), 0, 0) == Some(JBool(false))
  {
    assert NoValue !in h.slots;
  }
}
