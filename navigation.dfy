/**
 * Reference definitions of the delegate's answers: cyclic order over the
 * collection, and the search for the first key that is not disabled.
 * The delegate's loops are proved against these definitions.
 */
module Navigation {
  import opened Wrappers
  import opened Collection

  /** True when some key of `keys` is not disabled (the `some` scan of the constructor). */
  function SomeEnabled<K(==)>(keys: seq<K>, disabled: set<K>): (b: bool)
    ensures b <==> exists j :: 0 <= j < |keys| && keys[j] !in disabled
  {
    if |keys| == 0 then false
    else if keys[0] !in disabled then true
    else
      assert forall j :: 1 <= j < |keys| ==> keys[j] == keys[1..][j - 1];
      SomeEnabled(keys[1..], disabled)
  }

  /** The first key of `s`, from the front, that is not disabled. */
  function ScanForward<K(==)>(s: seq<K>, disabled: set<K>): (r: Option<K>)
    ensures r.None? <==> forall j :: 0 <= j < |s| ==> s[j] in disabled
    ensures r.Some? ==> exists j :: 0 <= j < |s| && s[j] == r.value && s[j] !in disabled
                                    && forall e :: 0 <= e < j ==> s[e] in disabled
  {
    if |s| == 0 then None
    else if s[0] !in disabled then Some(s[0])
    else
      assert forall j :: 1 <= j < |s| ==> s[j] == s[1..][j - 1];
      ScanForward(s[1..], disabled)
  }

  /** The last key of `s`, from the back, that is not disabled. */
  function ScanBackward<K(==)>(s: seq<K>, disabled: set<K>): (r: Option<K>)
    ensures r.None? <==> forall j :: 0 <= j < |s| ==> s[j] in disabled
    ensures r.Some? ==> exists j :: 0 <= j < |s| && s[j] == r.value && s[j] !in disabled
                                    && forall e :: j < e < |s| ==> s[e] in disabled
  {
    if |s| == 0 then None
    else if s[|s| - 1] !in disabled then Some(s[|s| - 1])
    else
      assert forall j :: 0 <= j < |s| - 1 ==> s[j] == s[..|s| - 1][j];
      ScanBackward(s[..|s| - 1], disabled)
  }

  /** An enabled key with only disabled keys before it is what the forward search finds. */
  lemma ScanForwardAt<K>(s: seq<K>, j: nat, disabled: set<K>)
    requires j < |s| && s[j] !in disabled
    requires forall e :: 0 <= e < j ==> s[e] in disabled
    ensures ScanForward(s, disabled) == Some(s[j])
  {
  }

  /** An enabled key with only disabled keys after it is what the backward search finds. */
  lemma ScanBackwardAt<K>(s: seq<K>, j: nat, disabled: set<K>)
    requires j < |s| && s[j] !in disabled
    requires forall e :: j < e < |s| ==> s[e] in disabled
    ensures ScanBackward(s, disabled) == Some(s[j])
  {
  }

  /** In a collection, the forward search finds the enabled key of least position. */
  lemma FirstEnabledKey<K>(keys: seq<K>, disabled: set<K>)
    requires Distinct(keys)
    ensures var r := ScanForward(keys, disabled);
      r.Some? ==> r.value in keys && r.value !in disabled
                  && forall j :: 0 <= j < IndexOf(keys, r.value) ==> keys[j] in disabled
  {
  }

  /** In a collection, the backward search finds the enabled key of greatest position. */
  lemma LastEnabledKey<K>(keys: seq<K>, disabled: set<K>)
    requires Distinct(keys)
    ensures var r := ScanBackward(keys, disabled);
      r.Some? ==> r.value in keys && r.value !in disabled
                  && forall j :: IndexOf(keys, r.value) < j < |keys| ==> keys[j] in disabled
  {
  }

  /** The position `g` steps after position `i` in a cycle of length `n`. */
  function Forward(n: nat, i: nat, g: nat): (j: nat)
    requires i < n && g <= n
    ensures j < n
  {
    if i + g < n then i + g else i + g - n
  }

  /** The position `g` steps before position `i` in a cycle of length `n`. */
  function Backward(n: nat, i: nat, g: nat): (j: nat)
    requires i < n && g <= n
    ensures j < n
  {
    if g <= i then i - g else i - g + n
  }

  /** The keys after `k` in cyclic order, ending with `k` itself. */
  function CyclicAfter<K(==)>(keys: seq<K>, k: K): seq<K>
    requires k in keys
  {
    var i := IndexOf(keys, k);
    keys[i + 1..] + keys[..i + 1]
  }

  /** The keys before `k` in cyclic order, read back to front: it starts with `k` itself. */
  function CyclicBefore<K(==)>(keys: seq<K>, k: K): seq<K>
    requires k in keys
  {
    var i := IndexOf(keys, k);
    keys[i..] + keys[..i]
  }

  /** What `getNextKey(k)` answers: the first enabled key strictly after `k`, wrapping around. */
  function NextEnabled<K(==)>(keys: seq<K>, disabled: set<K>, k: K): (r: Option<K>)
    requires k in keys
    ensures r.Some? ==> r.value in keys && r.value !in disabled
  {
    ScanForward(CyclicAfter(keys, k), disabled)
  }

  /** What `getPreviousKey(k)` answers: the first enabled key strictly before `k`, wrapping around. */
  function PreviousEnabled<K(==)>(keys: seq<K>, disabled: set<K>, k: K): (r: Option<K>)
    requires k in keys
    ensures r.Some? ==> r.value in keys && r.value !in disabled
  {
    ScanBackward(CyclicBefore(keys, k), disabled)
  }

  /** One step of the forward loop: `getKeyAfter(k)`, or `getFirstKey()` past the end. */
  function StepForward<K(==)>(keys: seq<K>, k: K): (r: K)
    requires k in keys
    ensures r == keys[Forward(|keys|, IndexOf(keys, k), 1)]
  {
    match KeyAfter(keys, k)
    case Some(next) => next
    case None => FirstKey(keys).value
  }

  /** One step of the backward loop: `getKeyBefore(k)`, or `getLastKey()` before the start. */
  function StepBackward<K(==)>(keys: seq<K>, k: K): (r: K)
    requires k in keys
    ensures r == keys[Backward(|keys|, IndexOf(keys, k), 1)]
  {
    match KeyBefore(keys, k)
    case Some(previous) => previous
    case None => LastKey(keys).value
  }

  lemma CyclicAfterAt<K>(keys: seq<K>, k: K, t: nat)
    requires k in keys && t < |keys|
    ensures |CyclicAfter(keys, k)| == |keys|
    ensures CyclicAfter(keys, k)[t] == keys[Forward(|keys|, IndexOf(keys, k), t + 1)]
  {
  }

  lemma CyclicBeforeAt<K>(keys: seq<K>, k: K, g: nat)
    requires k in keys && 1 <= g <= |keys|
    ensures |CyclicBefore(keys, k)| == |keys|
    ensures CyclicBefore(keys, k)[|keys| - g] == keys[Backward(|keys|, IndexOf(keys, k), g)]
  {
  }

  /** One step of the forward loop moves one place further round the cycle. */
  lemma StepForwardAt<K>(keys: seq<K>, i: nat, g: nat)
    requires Distinct(keys) && i < |keys| && g < |keys|
    ensures StepForward(keys, keys[Forward(|keys|, i, g)]) == keys[Forward(|keys|, i, g + 1)]
  {
    var n := |keys|;
    IndexOfAt(keys, Forward(n, i, g));
    assert Forward(n, Forward(n, i, g), 1) == Forward(n, i, g + 1);
  }

  /** One step of the backward loop moves one place back round the cycle. */
  lemma StepBackwardAt<K>(keys: seq<K>, i: nat, g: nat)
    requires Distinct(keys) && i < |keys| && g < |keys|
    ensures StepBackward(keys, keys[Backward(|keys|, i, g)]) == keys[Backward(|keys|, i, g + 1)]
  {
    var n := |keys|;
    IndexOfAt(keys, Backward(n, i, g));
    assert Backward(n, Backward(n, i, g), 1) == Backward(n, i, g + 1);
  }

  /** Disabled keys at the front of CyclicAfter are the disabled keys just after `k`. */
  lemma CyclicAfterPrefix<K>(keys: seq<K>, k: K, j: nat, disabled: set<K>)
    requires k in keys && j < |keys|
    requires forall e :: 0 <= e < j ==> CyclicAfter(keys, k)[e] in disabled
    ensures CyclicAfter(keys, k)[j] == keys[Forward(|keys|, IndexOf(keys, k), j + 1)]
    ensures forall e :: 1 <= e < j + 1 ==> keys[Forward(|keys|, IndexOf(keys, k), e)] in disabled
  {
    var n, i, after := |keys|, IndexOf(keys, k), CyclicAfter(keys, k);
    CyclicAfterAt(keys, k, j);
    forall e | 1 <= e < j + 1 ensures keys[Forward(n, i, e)] in disabled {
      CyclicAfterAt(keys, k, e - 1);
      assert after[e - 1] in disabled;
    }
  }

  /** Disabled keys at the back of CyclicBefore are the disabled keys just before `k`. */
  lemma CyclicBeforeSuffix<K>(keys: seq<K>, k: K, j: nat, disabled: set<K>)
    requires k in keys && j < |keys|
    requires forall e :: j < e < |keys| ==> CyclicBefore(keys, k)[e] in disabled
    ensures CyclicBefore(keys, k)[j] == keys[Backward(|keys|, IndexOf(keys, k), |keys| - j)]
    ensures forall e :: 1 <= e < |keys| - j ==> keys[Backward(|keys|, IndexOf(keys, k), e)] in disabled
  {
    var n, i, before := |keys|, IndexOf(keys, k), CyclicBefore(keys, k);
    CyclicBeforeAt(keys, k, n - j);
    forall e | 1 <= e < n - j ensures keys[Backward(n, i, e)] in disabled {
      CyclicBeforeAt(keys, k, e);
      assert before[n - e] in disabled;
    }
  }

  /** Both cyclic views hold exactly the keys of the collection. */
  lemma CyclicSameKeys<K>(keys: seq<K>, k: K)
    requires k in keys
    ensures forall x :: x in CyclicAfter(keys, k) <==> x in keys
    ensures forall x :: x in CyclicBefore(keys, k) <==> x in keys
  {
  }

  /** A cyclic view has every key disabled exactly when the collection has. */
  lemma CyclicAllDisabled<K>(keys: seq<K>, view: seq<K>, disabled: set<K>)
    requires forall x :: x in view <==> x in keys
    ensures (forall t :: 0 <= t < |view| ==> view[t] in disabled)
        <==> (forall j :: 0 <= j < |keys| ==> keys[j] in disabled)
  {
    if forall t :: 0 <= t < |view| ==> view[t] in disabled {
      forall j | 0 <= j < |keys| ensures keys[j] in disabled {
        assert keys[j] in view;
      }
    }
    if forall j :: 0 <= j < |keys| ==> keys[j] in disabled {
      forall t | 0 <= t < |view| ensures view[t] in disabled {
        assert view[t] in keys;
      }
    }
  }

  /** The forward search from `k` finds nothing exactly when every key is disabled. */
  lemma NextEnabledNone<K>(keys: seq<K>, disabled: set<K>, k: K)
    requires k in keys
    ensures NextEnabled(keys, disabled, k).None? <==> forall j :: 0 <= j < |keys| ==> keys[j] in disabled
  {
    CyclicSameKeys(keys, k);
    CyclicAllDisabled(keys, CyclicAfter(keys, k), disabled);
  }

  /** The backward search from `k` finds nothing exactly when every key is disabled. */
  lemma PreviousEnabledNone<K>(keys: seq<K>, disabled: set<K>, k: K)
    requires k in keys
    ensures PreviousEnabled(keys, disabled, k).None? <==> forall j :: 0 <= j < |keys| ==> keys[j] in disabled
  {
    CyclicSameKeys(keys, k);
    CyclicAllDisabled(keys, CyclicBefore(keys, k), disabled);
  }

  /**
   * `getNextKey(k)` in cyclic-order terms, when it finds a key (NextEnabledNone
   * says when): the enabled key `g` steps after `k` (1 <= g <= |keys|, so `k`
   * itself when g = |keys|), with every key strictly between disabled.
   */
  lemma NextEnabledInCyclicOrder<K>(keys: seq<K>, disabled: set<K>, k: K)
    requires k in keys
    ensures var r := NextEnabled(keys, disabled, k);
      r.Some? ==> exists g :: 1 <= g <= |keys| && r.value == keys[Forward(|keys|, IndexOf(keys, k), g)]
                              && r.value !in disabled
                              && forall e :: 1 <= e < g ==> keys[Forward(|keys|, IndexOf(keys, k), e)] in disabled
  {
    var n, i := |keys|, IndexOf(keys, k);
    var after := CyclicAfter(keys, k);
    var r := NextEnabled(keys, disabled, k);
    if r.Some? {
      var j :| 0 <= j < n && after[j] == r.value && after[j] !in disabled
               && forall e :: 0 <= e < j ==> after[e] in disabled;
      CyclicAfterPrefix(keys, k, j, disabled);
      assert r.value == keys[Forward(n, i, j + 1)];
    }
  }

  /**
   * `getPreviousKey(k)` in cyclic-order terms, when it finds a key
   * (PreviousEnabledNone says when): the enabled key `g` steps before `k`, every
   * key strictly between disabled.
   */
  lemma PreviousEnabledInCyclicOrder<K>(keys: seq<K>, disabled: set<K>, k: K)
    requires k in keys
    ensures var r := PreviousEnabled(keys, disabled, k);
      r.Some? ==> exists g :: 1 <= g <= |keys| && r.value == keys[Backward(|keys|, IndexOf(keys, k), g)]
                              && r.value !in disabled
                              && forall e :: 1 <= e < g ==> keys[Backward(|keys|, IndexOf(keys, k), e)] in disabled
  {
    var n, i := |keys|, IndexOf(keys, k);
    var before := CyclicBefore(keys, k);
    var r := PreviousEnabled(keys, disabled, k);
    if r.Some? {
      var j :| 0 <= j < n && before[j] == r.value && before[j] !in disabled
               && forall e :: j < e < n ==> before[e] in disabled;
      CyclicBeforeSuffix(keys, k, j, disabled);
      assert r.value == keys[Backward(n, i, n - j)];
    }
  }

  /**
   * From enabled position `i`, the nearest enabled key forward is `g` steps away;
   * from there the nearest enabled key backward is `g'` steps away. Then g' = g:
   * stepping back g steps reaches `i`, which is enabled, and fewer steps would
   * stop on one of the disabled keys in between.
   */
  lemma ReturnGap<K>(keys: seq<K>, disabled: set<K>, i: nat, g: nat, g': nat)
    requires i < |keys| && keys[i] !in disabled && 1 <= g <= |keys| && 1 <= g' <= |keys|
    requires forall e :: 1 <= e < g ==> keys[Forward(|keys|, i, e)] in disabled
    requires keys[Backward(|keys|, Forward(|keys|, i, g), g')] !in disabled
    requires forall e :: 1 <= e < g' ==> keys[Backward(|keys|, Forward(|keys|, i, g), e)] in disabled
    ensures g' == g
  {
    var n, j := |keys|, Forward(|keys|, i, g);
    assert Backward(n, j, g) == i;
    assert g' <= g;
    assert Backward(n, j, g') == Forward(n, i, g - g');
  }

  /** The mirror of ReturnGap: backward first, then forward. */
  lemma AdvanceGap<K>(keys: seq<K>, disabled: set<K>, i: nat, g: nat, g': nat)
    requires i < |keys| && keys[i] !in disabled && 1 <= g <= |keys| && 1 <= g' <= |keys|
    requires forall e :: 1 <= e < g ==> keys[Backward(|keys|, i, e)] in disabled
    requires keys[Forward(|keys|, Backward(|keys|, i, g), g')] !in disabled
    requires forall e :: 1 <= e < g' ==> keys[Forward(|keys|, Backward(|keys|, i, g), e)] in disabled
    ensures g' == g
  {
    var n, j := |keys|, Backward(|keys|, i, g);
    assert Forward(n, j, g) == i;
    assert g' <= g;
    assert Forward(n, j, g') == Backward(n, i, g - g');
  }

  /** The number of steps from `k` to its next enabled key, when there is one. */
  lemma NextGap<K>(keys: seq<K>, disabled: set<K>, k: K) returns (g: nat)
    requires k in keys && exists j :: 0 <= j < |keys| && keys[j] !in disabled
    ensures NextEnabled(keys, disabled, k).Some?
    ensures 1 <= g <= |keys|
    ensures NextEnabled(keys, disabled, k).value == keys[Forward(|keys|, IndexOf(keys, k), g)]
    ensures forall e :: 1 <= e < g ==> keys[Forward(|keys|, IndexOf(keys, k), e)] in disabled
  {
    NextEnabledNone(keys, disabled, k);
    NextEnabledInCyclicOrder(keys, disabled, k);
    g :| 1 <= g <= |keys| && NextEnabled(keys, disabled, k).value == keys[Forward(|keys|, IndexOf(keys, k), g)]
         && forall e :: 1 <= e < g ==> keys[Forward(|keys|, IndexOf(keys, k), e)] in disabled;
  }

  /** The number of steps back from `k` to its previous enabled key, when there is one. */
  lemma PreviousGap<K>(keys: seq<K>, disabled: set<K>, k: K) returns (g: nat)
    requires k in keys && exists j :: 0 <= j < |keys| && keys[j] !in disabled
    ensures PreviousEnabled(keys, disabled, k).Some?
    ensures 1 <= g <= |keys|
    ensures PreviousEnabled(keys, disabled, k).value == keys[Backward(|keys|, IndexOf(keys, k), g)]
    ensures forall e :: 1 <= e < g ==> keys[Backward(|keys|, IndexOf(keys, k), e)] in disabled
  {
    PreviousEnabledNone(keys, disabled, k);
    PreviousEnabledInCyclicOrder(keys, disabled, k);
    g :| 1 <= g <= |keys| && PreviousEnabled(keys, disabled, k).value == keys[Backward(|keys|, IndexOf(keys, k), g)]
         && forall e :: 1 <= e < g ==> keys[Backward(|keys|, IndexOf(keys, k), e)] in disabled;
  }

  /** Some number of steps forward from position `i`, at most a full round, reaches any given position. */
  lemma ForwardReaches(n: nat, i: nat, p: nat) returns (g: nat)
    requires i < n && p < n
    ensures 1 <= g <= n && Forward(n, i, g) == p
  {
    g := if i < p then p - i else p - i + n;
  }

  /** Some number of steps back from position `i`, at most a full round, reaches any given position. */
  lemma BackwardReaches(n: nat, i: nat, p: nat) returns (g: nat)
    requires i < n && p < n
    ensures 1 <= g <= n && Backward(n, i, g) == p
  {
    g := if p < i then i - p else i - p + n;
  }

  /**
   * Along any walk `at` over the positions, only one number of steps reaches
   * an enabled key with only disabled keys before it.
   */
  lemma FirstStopUnique<K>(keys: seq<K>, disabled: set<K>, at: nat --> nat, g: nat, g': nat)
    requires forall e :: 1 <= e <= |keys| ==> at.requires(e) && at(e) < |keys|
    requires 1 <= g <= |keys| && 1 <= g' <= |keys|
    requires keys[at(g)] !in disabled && forall e :: 1 <= e < g ==> keys[at(e)] in disabled
    requires keys[at(g')] !in disabled && forall e :: 1 <= e < g' ==> keys[at(e)] in disabled
    ensures g == g'
  {
  }

  /**
   * The converse of NextEnabledInCyclicOrder: an enabled key `g` steps after
   * `k`, with only disabled keys strictly between, is the next key of `k`.
   */
  lemma NextEnabledAt<K>(keys: seq<K>, disabled: set<K>, k: K, g: nat)
    requires k in keys && 1 <= g <= |keys|
    requires keys[Forward(|keys|, IndexOf(keys, k), g)] !in disabled
    requires forall e :: 1 <= e < g ==> keys[Forward(|keys|, IndexOf(keys, k), e)] in disabled
    ensures NextEnabled(keys, disabled, k) == Some(keys[Forward(|keys|, IndexOf(keys, k), g)])
  {
    var g' := NextGap(keys, disabled, k);
    FirstStopUnique(keys, disabled, (e: nat) requires e <= |keys| => Forward(|keys|, IndexOf(keys, k), e), g, g');
  }

  /**
   * The converse of PreviousEnabledInCyclicOrder: an enabled key `g` steps
   * before `k`, with only disabled keys strictly between, is the previous key of `k`.
   */
  lemma PreviousEnabledAt<K>(keys: seq<K>, disabled: set<K>, k: K, g: nat)
    requires k in keys && 1 <= g <= |keys|
    requires keys[Backward(|keys|, IndexOf(keys, k), g)] !in disabled
    requires forall e :: 1 <= e < g ==> keys[Backward(|keys|, IndexOf(keys, k), e)] in disabled
    ensures PreviousEnabled(keys, disabled, k) == Some(keys[Backward(|keys|, IndexOf(keys, k), g)])
  {
    var g' := PreviousGap(keys, disabled, k);
    FirstStopUnique(keys, disabled, (e: nat) requires e <= |keys| => Backward(|keys|, IndexOf(keys, k), e), g, g');
  }

  /**
   * Moving to the next enabled key and then back to the previous one returns
   * to where the move started, when that key is enabled itself.
   */
  lemma NextThenPrevious<K>(keys: seq<K>, disabled: set<K>, k: K)
    requires Distinct(keys) && k in keys && k !in disabled
    ensures NextEnabled(keys, disabled, k).Some?
    ensures PreviousEnabled(keys, disabled, NextEnabled(keys, disabled, k).value) == Some(k)
  {
    assert keys[IndexOf(keys, k)] !in disabled;
    var g := NextGap(keys, disabled, k);
    var r := NextEnabled(keys, disabled, k).value;
    var i, j := IndexOf(keys, k), Forward(|keys|, IndexOf(keys, k), g);
    IndexOfAt(keys, j);
    assert keys[j] !in disabled;
    var g' := PreviousGap(keys, disabled, r);
    ReturnGap(keys, disabled, i, g, g');
  }

  /**
   * Moving to the previous enabled key and then on to the next one returns
   * to where the move started, when that key is enabled itself.
   */
  lemma PreviousThenNext<K>(keys: seq<K>, disabled: set<K>, k: K)
    requires Distinct(keys) && k in keys && k !in disabled
    ensures PreviousEnabled(keys, disabled, k).Some?
    ensures NextEnabled(keys, disabled, PreviousEnabled(keys, disabled, k).value) == Some(k)
  {
    assert keys[IndexOf(keys, k)] !in disabled;
    var g := PreviousGap(keys, disabled, k);
    var r := PreviousEnabled(keys, disabled, k).value;
    var i, j := IndexOf(keys, k), Backward(|keys|, IndexOf(keys, k), g);
    IndexOfAt(keys, j);
    assert keys[j] !in disabled;
    var g' := NextGap(keys, disabled, r);
    AdvanceGap(keys, disabled, i, g, g');
  }

  /** When `k` is the only enabled key, both moves wrap around to `k` itself. */
  lemma SoleEnabledKey<K>(keys: seq<K>, disabled: set<K>, k: K)
    requires k in keys && k !in disabled
    requires forall j :: 0 <= j < |keys| && keys[j] != k ==> keys[j] in disabled
    ensures NextEnabled(keys, disabled, k) == Some(k)
    ensures PreviousEnabled(keys, disabled, k) == Some(k)
  {
    NextEnabledNone(keys, disabled, k);
    PreviousEnabledNone(keys, disabled, k);
    NextEnabledInCyclicOrder(keys, disabled, k);
    PreviousEnabledInCyclicOrder(keys, disabled, k);
  }

  /** A disabled key appended at the back does not change the forward search. */
  lemma {:induction false} ScanForwardAppendDisabled<K>(s: seq<K>, x: K, disabled: set<K>)
    requires x in disabled
    ensures ScanForward(s + [x], disabled) == ScanForward(s, disabled)
  {
    if |s| == 0 {
      assert ([] + [x])[1..] == [];
    } else {
      assert (s + [x])[1..] == s[1..] + [x];
      ScanForwardAppendDisabled(s[1..], x, disabled);
    }
  }

  /** A disabled key put in front does not change the backward search. */
  lemma {:induction false} ScanBackwardPrependDisabled<K>(x: K, s: seq<K>, disabled: set<K>)
    requires x in disabled
    ensures ScanBackward([x] + s, disabled) == ScanBackward(s, disabled)
  {
    if |s| == 0 {
      assert ([x] + [])[..0] == [];
    } else {
      assert ([x] + s)[..|s|] == [x] + s[..|s| - 1];
      ScanBackwardPrependDisabled(x, s[..|s| - 1], disabled);
    }
  }

  /** When the first key is disabled, the next key after it is the first enabled key. */
  lemma NextOfDisabledFirst<K>(keys: seq<K>, disabled: set<K>)
    requires |keys| > 0 && keys[0] in disabled
    ensures NextEnabled(keys, disabled, keys[0]) == ScanForward(keys, disabled)
  {
    assert CyclicAfter(keys, keys[0]) == keys[1..] + [keys[0]];
    ScanForwardAppendDisabled(keys[1..], keys[0], disabled);
  }

  /** When the last key is disabled, the previous key before it is the last enabled key. */
  lemma PreviousOfDisabledLast<K>(keys: seq<K>, disabled: set<K>)
    requires Distinct(keys) && |keys| > 0 && keys[|keys| - 1] in disabled
    ensures PreviousEnabled(keys, disabled, keys[|keys| - 1]) == ScanBackward(keys, disabled)
  {
    var n := |keys|;
    IndexOfAt(keys, n - 1);
    assert CyclicBefore(keys, keys[n - 1]) == [keys[n - 1]] + keys[..n - 1];
    ScanBackwardPrependDisabled(keys[n - 1], keys[..n - 1], disabled);
    assert keys[..n - 1] == keys[..|keys| - 1];
  }
}
