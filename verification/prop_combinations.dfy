/**
 `generatePropCombinations`: given the possible values of each prop, every
 combination of one value per prop. Combinations are objects whose keys are the prop
 names in order; the list is built in place, so that earlier props vary fastest.
 */
module PropCombinations {
  import opened Base
  import opened OrderedMap

  /** What `propValues` holds for a prop: an array of values, or anything else. */
  datatype ValueList<V> = ValueArray(items: seq<V>) | NotArray

  /** `propValues`, in `Object.keys` order. */
  type PropValues<V> = OMap<ValueList<V>>

  /** One combination: prop name to value. */
  type Combo<V> = OMap<V>

  /** A prop the generator accepts: a non-empty array. */
  predicate Usable<V>(l: ValueList<V>) {
    l.ValueArray? && |l.items| > 0
  }

  /** The prop names with their value lists (an unusable list read as empty). */
  function Lists<V>(pv: PropValues<V>): (r: seq<(Key, seq<V>)>)
    ensures |r| == |pv|
    ensures forall i :: 0 <= i < |pv| ==> r[i].0 == pv[i].0
    ensures forall i :: 0 <= i < |pv| && Usable(pv[i].1) ==> r[i].1 == pv[i].1.items
  {
    seq(|pv|, i requires 0 <= i < |pv| => (pv[i].0, if pv[i].1.ValueArray? then pv[i].1.items else []))
  }

  function Names<V>(props: seq<(Key, seq<V>)>): (r: seq<Key>)
    ensures |r| == |props| && forall i :: 0 <= i < |props| ==> r[i] == props[i].0
  {
    seq(|props|, i requires 0 <= i < |props| => props[i].0)
  }

  // ---------------------------------------------------------------- the reference product

  /** Every combination of `prev` extended with `p` set to `v`. */
  function Block<V>(prev: seq<Combo<V>>, p: Key, v: V): (r: seq<Combo<V>>)
    ensures |r| == |prev|
    ensures forall k :: 0 <= k < |prev| ==> r[k] == prev[k] + [(p, v)]
  {
    seq(|prev|, k requires 0 <= k < |prev| => prev[k] + [(p, v)])
  }

  /** One block per value of `p`, in value order. */
  function Blocks<V>(prev: seq<Combo<V>>, p: Key, vs: seq<V>): (r: seq<Combo<V>>)
    ensures |r| == |prev| * |vs|
    decreases |vs|
  {
    if |vs| == 0 then []
    else
      var n := |vs| - 1;
      var front := Blocks(prev, p, vs[..n]);
      assert |front| + |prev| == |prev| * |vs| by {
        assert |prev| * (n + 1) == |prev| * n + |prev|;
      }
      front + Block(prev, p, vs[n])
  }

  /**
   All combinations of one value per prop, earlier props varying fastest. For no
   props this is the single empty combination.
   */
  function Product<V>(props: seq<(Key, seq<V>)>): seq<Combo<V>>
    decreases |props|
  {
    if |props| == 0 then [[]]
    else
      var n := |props| - 1;
      Blocks(Product(props[..n]), props[n].0, props[n].1)
  }

  /** The product of the list lengths. */
  function Count<V>(props: seq<(Key, seq<V>)>): nat
    decreases |props|
  {
    if |props| == 0 then 1 else Count(props[..|props| - 1]) * |props[|props| - 1].1|
  }

  /** The product over one more prop is the blocks of that prop over the shorter product. */
  lemma ProductSnoc<V>(props: seq<(Key, seq<V>)>, i: int)
    requires 0 <= i < |props|
    ensures Product(props[..i + 1]) == Blocks(Product(props[..i]), props[i].0, props[i].1)
  {
    assert props[..i + 1][..i] == props[..i];
  }

  /** There are as many combinations as the product of the list lengths. */
  lemma {:induction false} ProductLength<V>(props: seq<(Key, seq<V>)>)
    ensures |Product(props)| == Count(props)
    decreases |props|
  {
    if |props| > 0 {
      ProductLength(props[..|props| - 1]);
    }
  }

  /** Valid positions, one into each prop's list. */
  predicate ValidChoice<V>(props: seq<(Key, seq<V>)>, pos: seq<int>) {
    |pos| == |props| && forall i :: 0 <= i < |pos| ==> 0 <= pos[i] < |props[i].1|
  }

  /** The combination that takes value `pos[i]` of each prop `i`. */
  function Choose<V>(props: seq<(Key, seq<V>)>, pos: seq<int>): (c: Combo<V>)
    requires ValidChoice(props, pos)
    ensures |c| == |props|
    ensures forall i :: 0 <= i < |props| ==> c[i] == (props[i].0, props[i].1[pos[i]])
  {
    seq(|props|, i requires 0 <= i < |props| => (props[i].0, props[i].1[pos[i]]))
  }

  /**
   Where a choice sits in the product, read as a mixed-radix number whose lowest
   digit is the first prop's position.
   */
  function Rank<V>(props: seq<(Key, seq<V>)>, pos: seq<int>): int
    requires ValidChoice(props, pos)
    decreases |props|
  {
    if |props| == 0 then 0
    else
      var n := |props| - 1;
      pos[n] * Count(props[..n]) + Rank(props[..n], pos[..n])
  }

  lemma {:induction false} BlocksAt<V>(prev: seq<Combo<V>>, p: Key, vs: seq<V>, j: int, k: int)
    requires 0 <= j < |vs| && 0 <= k < |prev|
    ensures 0 <= j * |prev| + k < |prev| * |vs|
    ensures Blocks(prev, p, vs)[j * |prev| + k] == prev[k] + [(p, vs[j])]
    decreases |vs|
  {
    var n := |vs| - 1;
    assert j * |prev| + k < (j + 1) * |prev|;
    assert (j + 1) * |prev| <= |vs| * |prev| by {
      MulMono(j + 1, |vs|, |prev|);
    }
    assert 0 <= j * |prev|;
    if j < n {
      assert (j + 1) * |prev| <= n * |prev| by {
        MulMono(j + 1, n, |prev|);
      }
      assert vs[..n][j] == vs[j];
      BlocksAt(prev, p, vs[..n], j, k);
    }
  }

  lemma MulMono(a: int, b: int, c: nat)
    requires 0 <= a <= b
    ensures a * c <= b * c
  {
  }

  /**
   Completeness and order: every choice of one value per prop is in the product, at
   its mixed-radix rank.
   */
  lemma {:induction false} ProductAt<V>(props: seq<(Key, seq<V>)>, pos: seq<int>)
    requires ValidChoice(props, pos)
    ensures 0 <= Rank(props, pos) < |Product(props)|
    ensures Product(props)[Rank(props, pos)] == Choose(props, pos)
    decreases |props|
  {
    if |props| == 0 {
      assert Choose(props, pos) == [];
    } else {
      var n := |props| - 1;
      var front := props[..n];
      var fpos := pos[..n];
      assert ValidChoice(front, fpos);
      ProductAt(front, fpos);
      ProductLength(front);
      var prev := Product(front);
      BlocksAt(prev, props[n].0, props[n].1, pos[n], Rank(front, fpos));
      assert Choose(props, pos) == Choose(front, fpos) + [(props[n].0, props[n].1[pos[n]])];
    }
  }

  lemma {:induction false} BlocksMembers<V>(prev: seq<Combo<V>>, p: Key, vs: seq<V>, c: Combo<V>)
    requires c in Blocks(prev, p, vs)
    ensures |c| > 0 && c[..|c| - 1] in prev && c[|c| - 1].0 == p && c[|c| - 1].1 in vs
    decreases |vs|
  {
    var n := |vs| - 1;
    if c !in Block(prev, p, vs[n]) {
      BlocksMembers(prev, p, vs[..n], c);
    } else {
      var k :| 0 <= k < |prev| && Block(prev, p, vs[n])[k] == c;
      assert c[..|c| - 1] == prev[k];
    }
  }

  /** Each combination has exactly the prop names, in order, and a value of each prop's list. */
  lemma {:induction false} ProductMembers<V>(props: seq<(Key, seq<V>)>, c: Combo<V>)
    requires c in Product(props)
    ensures Keys(c) == Names(props)
    ensures forall i :: 0 <= i < |props| ==> c[i].1 in props[i].1
    decreases |props|
  {
    if |props| > 0 {
      var n := |props| - 1;
      BlocksMembers(Product(props[..n]), props[n].0, props[n].1, c);
      ProductMembers(props[..n], c[..|c| - 1]);
      SnocMembers(props, c);
    }
  }

  /** A combination for the earlier props, extended with a value of the last prop. */
  lemma SnocMembers<V>(props: seq<(Key, seq<V>)>, c: Combo<V>)
    requires |props| > 0 && |c| > 0
    requires var n := |props| - 1; var front := c[..|c| - 1];
      && Keys(front) == Names(props[..n])
      && (forall i :: 0 <= i < n ==> front[i].1 in props[..n][i].1)
      && c[|c| - 1].0 == props[n].0 && c[|c| - 1].1 in props[n].1
    ensures Keys(c) == Names(props)
    ensures forall i :: 0 <= i < |props| ==> c[i].1 in props[i].1
  {
    var n := |props| - 1;
    var front := c[..|c| - 1];
    assert |front| == n;
    assert Keys(c) == Keys(front) + [props[n].0];
    assert Names(props) == Names(props[..n]) + [props[n].0];
    forall i | 0 <= i < n
      ensures c[i].1 in props[i].1
    {
      assert front[i] == c[i] && props[..n][i] == props[i];
    }
  }

  /** A product over usable lists is never empty. */
  lemma {:induction false} ProductNonEmpty<V>(props: seq<(Key, seq<V>)>)
    requires forall i :: 0 <= i < |props| ==> |props[i].1| > 0
    ensures |Product(props)| > 0
    decreases |props|
  {
    if |props| > 0 {
      var n := |props| - 1;
      ProductNonEmpty(props[..n]);
      assert |Product(props[..n])| * |props[n].1| > 0;
    }
  }

  // ---------------------------------------------------------------- the generator as written

  /** `combo[p] = v` on a combination whose last key is `p` overwrites that last value. */
  lemma PutLast<V>(c: Combo<V>, p: Key, v0: V, v: V)
    requires !HasKey(c, p)
    ensures Put(c + [(p, v0)], p, v) == c + [(p, v)]
  {
    var m := c + [(p, v0)];
    assert Keys(m) == Keys(c) + [p];
    IndexOfFirst(Keys(m), p, |c|);
    assert Put(m, p, v) == m[|c| := (p, v)];
    assert m[|c| := (p, v)] == c + [(p, v)];
  }

  /** Copies of `cs` with `p` set to `v`. */
  function Respread<V>(cs: seq<Combo<V>>, p: Key, v: V): (r: seq<Combo<V>>)
    ensures |r| == |cs| && forall k :: 0 <= k < |cs| ==> r[k] == Put(cs[k], p, v)
  {
    seq(|cs|, k requires 0 <= k < |cs| => Put(cs[k], p, v))
  }

  /**
   One pass over the first `numCombos` combinations for value `v` of prop `p`: a
   combination without `p` gets it set in place, one that already has it is copied with
   `p` replaced and the copy appended.
   */
  method SpreadValue<V>(combos: seq<Combo<V>>, numCombos: nat, p: Key, v: V)
    returns (out: seq<Combo<V>>)
    requires numCombos <= |combos|
    ensures (forall k :: 0 <= k < numCombos ==> !HasKey(combos[k], p)) ==>
              out == Block(combos[..numCombos], p, v) + combos[numCombos..]
    ensures (forall k :: 0 <= k < numCombos ==> HasKey(combos[k], p)) ==>
              out == combos + Respread(combos[..numCombos], p, v)
  {
    out := combos;
    var k := 0;
    while k < numCombos
      invariant 0 <= k <= numCombos && |out| >= |combos|
      invariant out == Turns(combos, p, v, k)
    {
      out := SpreadOne(out, k, p, v);
      k := k + 1;
    }
    SpreadTurns(combos, numCombos, p, v);
  }

  /**
   The loop body for the combination at `k`: without `p` it gets `p` set in place,
   with `p` a copy with `p` replaced is appended.
   */
  method SpreadOne<V>(out: seq<Combo<V>>, k: nat, p: Key, v: V) returns (next: seq<Combo<V>>)
    requires k < |out|
    ensures next == TurnAt(out, k, p, v)
    ensures |next| >= |out|
    ensures !HasKey(out[k], p) ==> next[k] == out[k] + [(p, v)] && |next| == |out|
    ensures HasKey(out[k], p) ==> next[..|out|] == out && next[|out|] == Put(out[k], p, v)
  {
    var combo := out[k];
    if p !in Keys(combo) {
      next := out[k := combo + [(p, v)]];
    } else {
      next := out + [Put(combo, p, v)];
    }
  }

  /** One turn of the loop in `SpreadValue`, on the combinations built so far. */
  function TurnAt<V>(out: seq<Combo<V>>, k: nat, p: Key, v: V): seq<Combo<V>> {
    if k >= |out| then out
    else if p !in Keys(out[k]) then out[k := out[k] + [(p, v)]]
    else out + [Put(out[k], p, v)]
  }

  /** The first `k` turns. */
  function Turns<V>(combos: seq<Combo<V>>, p: Key, v: V, k: nat): seq<Combo<V>>
    decreases k
  {
    if k == 0 then combos else TurnAt(Turns(combos, p, v, k - 1), k - 1, p, v)
  }

  /**
   The first `numCombos` turns set `p` in place on combinations that all lack it, and
   append copies of combinations that all have it.
   */
  lemma SpreadTurns<V>(combos: seq<Combo<V>>, numCombos: nat, p: Key, v: V)
    requires numCombos <= |combos|
    ensures (forall k :: 0 <= k < numCombos ==> !HasKey(combos[k], p)) ==>
              Turns(combos, p, v, numCombos) == Block(combos[..numCombos], p, v) + combos[numCombos..]
    ensures (forall k :: 0 <= k < numCombos ==> HasKey(combos[k], p)) ==>
              Turns(combos, p, v, numCombos) == combos + Respread(combos[..numCombos], p, v)
  {
    var none := forall k :: 0 <= k < numCombos ==> !HasKey(combos[k], p);
    var all := forall k :: 0 <= k < numCombos ==> HasKey(combos[k], p);
    SpreadTurnsSoFar(combos, numCombos, p, v, none, all, numCombos);
  }

  lemma {:induction false} SpreadTurnsSoFar<V>(combos: seq<Combo<V>>, numCombos: nat, p: Key, v: V,
                                               none: bool, all: bool, k: nat)
    requires k <= numCombos <= |combos|
    requires none == forall k :: 0 <= k < numCombos ==> !HasKey(combos[k], p)
    requires all == forall k :: 0 <= k < numCombos ==> HasKey(combos[k], p)
    ensures SpreadSoFar(combos, p, v, k, Turns(combos, p, v, k), none, all)
    decreases k
  {
    if k == 0 {
      assert combos[..0] == [] && combos[0..] == combos;
    } else {
      SpreadTurnsSoFar(combos, numCombos, p, v, none, all, k - 1);
      assert none ==> !HasKey(combos[k - 1], p);
      assert all ==> HasKey(combos[k - 1], p);
      SpreadStep(combos, Turns(combos, p, v, k - 1), k - 1, p, v, none, all);
    }
  }

  /** One turn of the loop in `SpreadValue`, in either mode. */
  lemma SpreadStep<V>(combos: seq<Combo<V>>, out: seq<Combo<V>>, k: nat, p: Key, v: V, none: bool, all: bool)
    requires k < |combos|
    requires none ==> !HasKey(combos[k], p)
    requires all ==> HasKey(combos[k], p)
    requires SpreadSoFar(combos, p, v, k, out, none, all)
    ensures SpreadSoFar(combos, p, v, k + 1, TurnAt(out, k, p, v), none, all)
  {
    var next := TurnAt(out, k, p, v);
    assert |next| >= |out|;
    if none {
      SetInPlaceStep(combos, out, k, p, v);
      assert next == out[k := out[k] + [(p, v)]];
    }
    if all {
      AppendCopyStep(combos, out, k, p, v);
      assert next == out + [Put(out[k], p, v)];
    }
  }

  /**
   What the first `k` turns of `SpreadValue` leave: combinations that all lacked `p` have
   it set in place, and combinations that all had it are kept and followed by copies.
   */
  ghost predicate SpreadSoFar<V>(combos: seq<Combo<V>>, p: Key, v: V, k: nat, out: seq<Combo<V>>, none: bool, all: bool)
    requires k <= |combos|
  {
    && |out| >= |combos|
    && (none ==> out == Block(combos[..k], p, v) + combos[k..])
    && (all ==> out == combos + Respread(combos[..k], p, v))
  }

  lemma SetInPlaceStep<V>(combos: seq<Combo<V>>, out: seq<Combo<V>>, k: nat, p: Key, v: V)
    requires k < |combos| && out == Block(combos[..k], p, v) + combos[k..]
    ensures out[k] == combos[k]
    ensures out[k := out[k] + [(p, v)]] == Block(combos[..k + 1], p, v) + combos[k + 1..]
  {
  }

  lemma AppendCopyStep<V>(combos: seq<Combo<V>>, out: seq<Combo<V>>, k: nat, p: Key, v: V)
    requires k < |combos| && out == combos + Respread(combos[..k], p, v)
    ensures out[k] == combos[k]
    ensures out + [Put(out[k], p, v)] == combos + Respread(combos[..k + 1], p, v)
  {
    var before := Respread(combos[..k], p, v);
    assert out[k] == combos[k];
    assert Respread(combos[..k + 1], p, v) == before + [Put(combos[k], p, v)];
    assert (combos + before) + [Put(combos[k], p, v)] == combos + (before + [Put(combos[k], p, v)]);
  }

  /**
   The inner loops for one prop: with no combinations yet, one new combination per
   value; otherwise the existing combinations take the first value in place and a copy
   of them is appended for each further value.
   */
  method SpreadProp<V>(combos: seq<Combo<V>>, propName: Key, vs: seq<V>) returns (out: seq<Combo<V>>)
    requires |vs| > 0 && forall k :: 0 <= k < |combos| ==> !HasKey(combos[k], propName)
    ensures out == Blocks(if |combos| == 0 then [[]] else combos, propName, vs)
  {
    ghost var prev: seq<Combo<V>> := if |combos| == 0 then [[]] else combos;
    var numCombos := |combos|;
    out := combos;
    var j := 0;
    while j < |vs|
      invariant 0 <= j <= |vs|
      invariant numCombos == 0 || j > 0 ==> out == Blocks(prev, propName, vs[..j])
      invariant numCombos > 0 && j == 0 ==> out == prev
    {
      var propValue := vs[j];
      BlocksSnoc(prev, propName, vs, j);
      ghost var next := Blocks(prev, propName, vs[..j]) + Block(prev, propName, propValue);
      if numCombos > 0 {
        if j == 0 {
          out := SpreadValue(out, numCombos, propName, propValue);
          assert out == Block(prev, propName, propValue);
          assert next == [] + out;
        } else {
          KeyedAfterFirst(prev, propName, vs[..j]);
          assert out[..numCombos] == Block(prev, propName, vs[0]);
          out := SpreadValue(out, numCombos, propName, propValue);
          CopiesAreBlock(prev, propName, vs[0], propValue);
          assert out == next;
        }
      } else {
        assert prev == [[]];
        ghost var empty: Combo<V> := [];
        assert prev[0] == empty && empty + [(propName, propValue)] == [(propName, propValue)];
        assert |Block(prev, propName, propValue)| == 1;
        assert Block(prev, propName, propValue) == [[(propName, propValue)]];
        out := out + [[(propName, propValue)]];
        assert out == next;
      }
      assert out == Blocks(prev, propName, vs[..j + 1]);
      j := j + 1;
    }
    assert vs[..|vs|] == vs;
  }

  /** The blocks for one more value are the blocks so far followed by that value's block. */
  lemma BlocksSnoc<V>(prev: seq<Combo<V>>, p: Key, vs: seq<V>, j: int)
    requires 0 <= j < |vs|
    ensures Blocks(prev, p, vs[..j + 1]) == Blocks(prev, p, vs[..j]) + Block(prev, p, vs[j])
  {
    assert vs[..j + 1][..j] == vs[..j];
  }

  /** Once the first value is spread, every combination in the first block has the prop. */
  lemma KeyedAfterFirst<V>(prev: seq<Combo<V>>, p: Key, vs: seq<V>)
    requires |vs| > 0 && forall k :: 0 <= k < |prev| ==> !HasKey(prev[k], p)
    ensures forall k :: 0 <= k < |prev| ==>
      HasKey(Blocks(prev, p, vs)[k], p) && Blocks(prev, p, vs)[k] == prev[k] + [(p, vs[0])]
  {
    var b := Blocks(prev, p, vs);
    BlocksFirst(prev, p, vs);
    forall k | 0 <= k < |prev|
      ensures HasKey(b[k], p) && b[k] == prev[k] + [(p, vs[0])]
    {
      assert b[k] == b[..|prev|][k];
      assert Keys(prev[k] + [(p, vs[0])]) == Keys(prev[k]) + [p];
    }
  }

  /** The product starts with the block of the first value. */
  lemma {:induction false} BlocksFirst<V>(prev: seq<Combo<V>>, p: Key, vs: seq<V>)
    requires |vs| > 0
    ensures |prev| <= |Blocks(prev, p, vs)|
    ensures Blocks(prev, p, vs)[..|prev|] == Block(prev, p, vs[0])
    decreases |vs|
  {
    var n := |vs| - 1;
    var front := Blocks(prev, p, vs[..n]);
    assert Blocks(prev, p, vs) == front + Block(prev, p, vs[n]);
    if n == 0 {
      assert front == [];
    } else {
      BlocksFirst(prev, p, vs[..n]);
      assert vs[..n][0] == vs[0];
      PrefixOfPrefix(front, front + Block(prev, p, vs[n]), |prev|);
    }
  }

  /** Re-setting the prop on the first block gives the block for the new value. */
  lemma CopiesAreBlock<V>(prev: seq<Combo<V>>, p: Key, v0: V, v: V)
    requires forall k :: 0 <= k < |prev| ==> !HasKey(prev[k], p)
    ensures Respread(Block(prev, p, v0), p, v) == Block(prev, p, v)
  {
    forall k | 0 <= k < |prev| ensures Put(prev[k] + [(p, v0)], p, v) == prev[k] + [(p, v)] {
      PutLast(prev[k], p, v0, v);
    }
  }

  /**
   `generatePropCombinations`: no props give no combinations; a prop whose values are
   not a non-empty array is an error naming the first such prop; otherwise the result
   is the product, earlier props varying fastest.
   */
  method GeneratePropCombinations<V>(propValues: PropValues<V>)
    returns (r: Result<seq<Combo<V>>, Key>)
    requires Wf(propValues)
    ensures |propValues| == 0 ==> r == Success([])
    ensures r.Success? <==> forall i :: 0 <= i < |propValues| ==> Usable(propValues[i].1)
    ensures r.Failure? ==>
              exists i :: 0 <= i < |propValues| && r.error == propValues[i].0 && !Usable(propValues[i].1)
                && forall i' :: 0 <= i' < i ==> Usable(propValues[i'].1)
    ensures r.Success? && |propValues| > 0 ==> r.value == Product(Lists(propValues))
  {
    if |propValues| == 0 {
      return Success([]);
    }
    var combos: seq<Combo<V>> := [];
    var i := 0;
    while i < |propValues|
      invariant 0 <= i <= |propValues|
      invariant UsableBefore(propValues, i)
      invariant combos == Built(propValues, i)
    {
      var propName := propValues[i].0;
      var valuesForProp := propValues[i].1;
      if !Usable(valuesForProp) {
        return Failure(propName);
      }
      BuildStep(propValues, i, combos);
      combos := SpreadProp(combos, propName, valuesForProp.items);
      i := i + 1;
    }
    assert Lists(propValues)[..|propValues|] == Lists(propValues);
    return Success(combos);
  }

  /** Every prop before `i` has a usable value list. */
  predicate UsableBefore<V>(propValues: PropValues<V>, i: int)
    requires 0 <= i <= |propValues|
  {
    forall i' :: 0 <= i' < i ==> Usable(propValues[i'].1)
  }

  /** The combinations after spreading the first `i` props. */
  function Built<V>(propValues: PropValues<V>, i: int): seq<Combo<V>>
    requires 0 <= i <= |propValues|
  {
    if i == 0 then [] else Product(Lists(propValues)[..i])
  }

  /** Spreading a usable prop `i` over the combinations so far gives those for one more prop. */
  lemma BuildStep<V>(propValues: PropValues<V>, i: int, combos: seq<Combo<V>>)
    requires Wf(propValues) && 0 <= i < |propValues|
    requires UsableBefore(propValues, i) && Usable(propValues[i].1)
    requires combos == Built(propValues, i)
    ensures forall k :: 0 <= k < |combos| ==> !HasKey(combos[k], propValues[i].0)
    ensures UsableBefore(propValues, i + 1)
    ensures Blocks(if |combos| == 0 then [[]] else combos, propValues[i].0, propValues[i].1.items)
              == Built(propValues, i + 1)
  {
    var lists := Lists(propValues);
    var prev := Product(lists[..i]);
    ProductSnoc(lists, i);
    assert lists[i] == (propValues[i].0, propValues[i].1.items);
    if i > 0 {
      ProductNonEmpty(lists[..i]);
      NotYetKeyed(propValues, i, combos);
    } else {
      assert lists[..0] == [];
    }
    assert prev == if |combos| == 0 then [[]] else combos;
  }

  /**
   Before prop `i` is spread, no combination built so far has its name: their keys are
   the names of the earlier props, and `Object.keys` never repeats a name.
   */
  lemma NotYetKeyed<V>(propValues: PropValues<V>, i: int, combos: seq<Combo<V>>)
    requires Wf(propValues) && 0 < i < |propValues|
    requires combos == Product(Lists(propValues)[..i])
    ensures forall k :: 0 <= k < |combos| ==> !HasKey(combos[k], propValues[i].0)
  {
    forall k | 0 <= k < |combos| ensures !HasKey(combos[k], propValues[i].0) {
      ProductMembers(Lists(propValues)[..i], combos[k]);
      assert Keys(combos[k]) == Keys(propValues)[..i];
      assert Keys(propValues)[i] == propValues[i].0;
    }
  }
}
