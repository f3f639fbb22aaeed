/**
 `passthroughProps`: the props of a component that may be spread onto a DOM element,
 namely those whose name the HTML/SVG prop check accepts, minus the names the
 components handle themselves. The check is a parameter: its word list is not part of
 this model.
 */
module PassthroughProps {
  import opened Base
  import opened OrderedMap

  /** Names never passed through, whatever the prop check says. */
  const Excluded: set<Key> := {"style", "className", "children", "styles", "makeStyles", "deterministicId"}

  /** The filter `passthroughProps` applies to each prop name. */
  predicate Allowed(isPropValid: Key -> bool, name: Key) {
    isPropValid(name) && name !in Excluded
  }

  /** The allowed props, in their original order (the reference definition). */
  function Kept<V>(isPropValid: Key -> bool, props: OMap<V>): OMap<V>
    decreases |props|
  {
    if |props| == 0 then []
    else
      var n := |props| - 1;
      Kept(isPropValid, props[..n]) + (if Allowed(isPropValid, props[n].0) then [props[n]] else [])
  }

  /** A prop is kept exactly when it is one of the props and its name is allowed. */
  lemma {:induction false} KeptMembers<V>(isPropValid: Key -> bool, props: OMap<V>)
    ensures forall p :: p in Kept(isPropValid, props) <==> p in props && Allowed(isPropValid, p.0)
    decreases |props|
  {
    if |props| > 0 {
      var n := |props| - 1;
      KeptMembers(isPropValid, props[..n]);
      assert props == props[..n] + [props[n]];
    }
  }

  /** The kept names are the allowed names, in the original order. */
  lemma {:induction false} KeptKeys<V>(isPropValid: Key -> bool, props: OMap<V>)
    ensures Keys(Kept(isPropValid, props)) == KeptNames(isPropValid, Keys(props))
    decreases |props|
  {
    if |props| > 0 {
      var n := |props| - 1;
      KeptKeys(isPropValid, props[..n]);
      assert Keys(props)[..n] == Keys(props[..n]);
      var front := Kept(isPropValid, props[..n]);
      if Allowed(isPropValid, props[n].0) {
        assert Keys(front + [props[n]]) == Keys(front) + [props[n].0];
      } else {
        assert front + [] == front;
      }
    }
  }

  /** `Object.keys(props).filter(…)`. */
  function KeptNames(isPropValid: Key -> bool, names: seq<Key>): (r: seq<Key>)
    decreases |names|
  {
    if |names| == 0 then []
    else
      var n := |names| - 1;
      KeptNames(isPropValid, names[..n]) + (if Allowed(isPropValid, names[n]) then [names[n]] else [])
  }

  /** Filtering twice changes nothing. */
  lemma {:induction false} KeptIdempotent<V>(isPropValid: Key -> bool, props: OMap<V>)
    ensures Kept(isPropValid, Kept(isPropValid, props)) == Kept(isPropValid, props)
    decreases |props|
  {
    if |props| > 0 {
      var n := |props| - 1;
      var front := Kept(isPropValid, props[..n]);
      KeptIdempotent(isPropValid, props[..n]);
      if Allowed(isPropValid, props[n].0) {
        var all := front + [props[n]];
        assert all[..|all| - 1] == front;
      } else {
        assert front + [] == front;
      }
    }
  }

  /**
   On props with distinct names, the result has distinct names and looks up like the
   props for an allowed name and has nothing for any other name.
   */
  lemma KeptGet<V>(isPropValid: Key -> bool, props: OMap<V>, k: Key)
    requires Wf(props)
    ensures Wf(Kept(isPropValid, props))
    ensures Get(Kept(isPropValid, props), k) == if Allowed(isPropValid, k) then Get(props, k) else None
  {
    var r := Kept(isPropValid, props);
    KeptMembers(isPropValid, props);
    KeptWf(isPropValid, props);
    if Allowed(isPropValid, k) && HasKey(props, k) {
      var i := IndexOf(Keys(props), k);
      assert props[i] in r;
      var t :| 0 <= t < |r| && r[t] == props[i];
      assert Keys(r)[t] == k;
    } else {
      forall j | 0 <= j < |r|
        ensures Keys(r)[j] != k
      {
        assert r[j] in r;
        var m := IndexOf(props, r[j]);
        assert Keys(props)[m] == r[j].0;
      }
    }
  }

  lemma {:induction false} KeptWf<V>(isPropValid: Key -> bool, props: OMap<V>)
    requires Wf(props)
    ensures Wf(Kept(isPropValid, props))
    decreases |props|
  {
    if |props| > 0 {
      var n := |props| - 1;
      assert Keys(props[..n]) == Keys(props)[..n];
      KeptWf(isPropValid, props[..n]);
      var front := Kept(isPropValid, props[..n]);
      if Allowed(isPropValid, props[n].0) {
        KeptMembers(isPropValid, props[..n]);
        assert forall q :: q in front ==> q.0 != props[n].0 by {
          forall q | q in front ensures q.0 != props[n].0 {
            var j := IndexOf(props[..n], q);
            assert Keys(props)[j] == q.0;
          }
        }
        WfSnoc(front, props[n]);
      }
    }
  }

  /** Appending a pair with a new key keeps the names distinct. */
  lemma WfSnoc<V>(m: OMap<V>, p: (Key, V))
    requires Wf(m) && p.0 !in Keys(m)
    ensures Wf(m + [p])
  {
    assert Keys(m + [p]) == Keys(m) + [p.0];
  }

  /**
   `passthroughProps`: copy each allowed prop into a fresh object, walking the names
   in order.
   */
  method Passthrough<V>(isPropValid: Key -> bool, props: OMap<V>) returns (validProps: OMap<V>)
    requires Wf(props)
    ensures validProps == Kept(isPropValid, props)
    ensures Wf(validProps)
    ensures forall k :: Get(validProps, k) == if Allowed(isPropValid, k) then Get(props, k) else None
  {
    validProps := [];
    var i := 0;
    while i < |props|
      invariant 0 <= i <= |props|
      invariant validProps == Kept(isPropValid, props[..i])
    {
      var (propName, value) := props[i];
      assert props[..i + 1][..i] == props[..i];
      if Allowed(isPropValid, propName) {
        assert !HasKey(validProps, propName) by {
          NotYetCopied(isPropValid, props, i);
        }
        validProps := Put(validProps, propName, value);
      }
      i := i + 1;
    }
    assert props[..|props|] == props;
    forall k ensures Get(validProps, k) == if Allowed(isPropValid, k) then Get(props, k) else None {
      KeptGet(isPropValid, props, k);
    }
    KeptWf(isPropValid, props);
  }

  /** The names copied before position `i` do not include the name at `i`. */
  lemma NotYetCopied<V>(isPropValid: Key -> bool, props: OMap<V>, i: int)
    requires Wf(props) && 0 <= i < |props|
    ensures !HasKey(Kept(isPropValid, props[..i]), props[i].0)
  {
    KeptKeys(isPropValid, props[..i]);
    KeptNamesSub(isPropValid, Keys(props[..i]));
    assert Keys(props[..i]) == Keys(props)[..i];
    assert forall j :: 0 <= j < i ==> Keys(props)[j] != props[i].0;
  }

  lemma {:induction false} KeptNamesSub(isPropValid: Key -> bool, names: seq<Key>)
    ensures forall x :: x in KeptNames(isPropValid, names) ==> x in names
    decreases |names|
  {
    if |names| > 0 {
      var n := |names| - 1;
      KeptNamesSub(isPropValid, names[..n]);
      assert names == names[..n] + [names[n]];
    }
  }
}
