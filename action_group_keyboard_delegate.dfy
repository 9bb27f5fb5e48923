/**
 * The keyboard delegate of an action group: it answers which key focus moves
 * to on an arrow key, Home or End. It skips disabled keys and wraps around at
 * both ends of the collection.
 */
module ActionGroup {
  import opened Wrappers
  import Collection
  import opened Navigation

  datatype Direction = Ltr | Rtl
  datatype Orientation = Horizontal | Vertical

  class ActionGroupKeyboardDelegate<K(==)> {
    /** The collection's keys, in order. */
    const keys: seq<K>
    /** True when left and right swap: a right-to-left, horizontal group. */
    const flipDirection: bool
    const disabledKeys: set<K>
    /** True when no key of the collection can take focus. */
    const isDisabled: bool
    /** The layout the delegate was built for; only `flipDirection` is kept by the source. */
    ghost const direction: Direction
    ghost const orientation: Orientation

    ghost predicate Valid() {
      && Collection.Distinct(keys)
      && (flipDirection <==> direction == Rtl && orientation == Horizontal)
      && (isDisabled <==> forall j :: 0 <= j < |keys| ==> keys[j] in disabledKeys)
    }

    constructor (keys: seq<K>, direction: Direction, orientation: Orientation, disabledKeys: set<K> := {})
      requires Collection.Distinct(keys)
      ensures Valid()
      ensures this.keys == keys && this.disabledKeys == disabledKeys
      ensures this.direction == direction && this.orientation == orientation
    {
      this.keys := keys;
      this.flipDirection := direction == Rtl && orientation == Horizontal;
      this.disabledKeys := disabledKeys;
      this.isDisabled := !SomeEnabled(keys, disabledKeys);
      this.direction := direction;
      this.orientation := orientation;
    }

    /** Left is forward only in a right-to-left horizontal group. */
    method GetKeyLeftOf(key: K) returns (r: Option<K>)
      requires Valid() && key in keys
      ensures direction == Rtl && orientation == Horizontal ==> r == NextEnabled(keys, disabledKeys, key)
      ensures direction == Ltr || orientation == Vertical ==> r == PreviousEnabled(keys, disabledKeys, key)
    {
      if flipDirection {
        r := GetNextKey(key);
      } else {
        r := GetPreviousKey(key);
      }
    }

    /** Right is backward only in a right-to-left horizontal group. */
    method GetKeyRightOf(key: K) returns (r: Option<K>)
      requires Valid() && key in keys
      ensures direction == Rtl && orientation == Horizontal ==> r == PreviousEnabled(keys, disabledKeys, key)
      ensures direction == Ltr || orientation == Vertical ==> r == NextEnabled(keys, disabledKeys, key)
    {
      if flipDirection {
        r := GetPreviousKey(key);
      } else {
        r := GetNextKey(key);
      }
    }

    /** Up is backward whatever the direction and orientation. */
    method GetKeyAbove(key: K) returns (r: Option<K>)
      requires Valid() && key in keys
      ensures r == PreviousEnabled(keys, disabledKeys, key)
    {
      r := GetPreviousKey(key);
    }

    /** Down is forward whatever the direction and orientation. */
    method GetKeyBelow(key: K) returns (r: Option<K>)
      requires Valid() && key in keys
      ensures r == NextEnabled(keys, disabledKeys, key)
    {
      r := GetNextKey(key);
    }

    /** The first enabled key; no key when all are disabled or there are none. */
    method GetFirstKey() returns (r: Option<K>)
      requires Valid()
      ensures r == ScanForward(keys, disabledKeys)
      ensures r.None? <==> isDisabled
      ensures r.Some? ==> r.value in keys && r.value !in disabledKeys
                          && forall j :: 0 <= j < Collection.IndexOf(keys, r.value) ==> keys[j] in disabledKeys
    {
      r := Collection.FirstKey(keys);
      if r.Some? && r.value in disabledKeys {
        NextOfDisabledFirst(keys, disabledKeys);
        r := GetNextKey(r.value);
      }
      FirstEnabledKey(keys, disabledKeys);
    }

    /** The last enabled key; no key when all are disabled or there are none. */
    method GetLastKey() returns (r: Option<K>)
      requires Valid()
      ensures r == ScanBackward(keys, disabledKeys)
      ensures r.None? <==> isDisabled
      ensures r.Some? ==> r.value in keys && r.value !in disabledKeys
                          && forall j :: Collection.IndexOf(keys, r.value) < j < |keys| ==> keys[j] in disabledKeys
    {
      r := Collection.LastKey(keys);
      if r.Some? && r.value in disabledKeys {
        PreviousOfDisabledLast(keys, disabledKeys);
        r := GetPreviousKey(r.value);
      }
      LastEnabledKey(keys, disabledKeys);
    }

    /** The next enabled key after `key`, wrapping from the last key to the first. */
    method GetNextKey(key: K) returns (r: Option<K>)
      requires Valid() && key in keys
      ensures r == NextEnabled(keys, disabledKeys, key)
      ensures r.None? <==> isDisabled
    {
      if isDisabled {
        NextEnabledNone(keys, disabledKeys, key);
        return None;
      }
      ghost var n, i := |keys|, Collection.IndexOf(keys, key);
      // Some key is enabled, and the search stops there at the latest.
      ghost var enabled :| 0 <= enabled < n && keys[enabled] !in disabledKeys;
      ghost var stop := ForwardReaches(n, i, enabled);
      ghost var steps := 1;
      StepForwardAt(keys, i, 0);
      var current := StepForward(keys, key);
      while current in disabledKeys
        invariant 1 <= steps <= stop
        invariant current == keys[Forward(n, i, steps)]
        invariant forall e :: 1 <= e < steps ==> keys[Forward(n, i, e)] in disabledKeys
        decreases stop - steps
      {
        StepForwardAt(keys, i, steps);
        current := StepForward(keys, current);
        steps := steps + 1;
      }
      NextEnabledAt(keys, disabledKeys, key, steps);
      NextEnabledNone(keys, disabledKeys, key);
      r := Some(current);
    }

    /** The previous enabled key before `key`, wrapping from the first key to the last. */
    method GetPreviousKey(key: K) returns (r: Option<K>)
      requires Valid() && key in keys
      ensures r == PreviousEnabled(keys, disabledKeys, key)
      ensures r.None? <==> isDisabled
    {
      if isDisabled {
        PreviousEnabledNone(keys, disabledKeys, key);
        return None;
      }
      ghost var n, i := |keys|, Collection.IndexOf(keys, key);
      // Some key is enabled, and the search stops there at the latest.
      ghost var enabled :| 0 <= enabled < n && keys[enabled] !in disabledKeys;
      ghost var stop := BackwardReaches(n, i, enabled);
      ghost var steps := 1;
      StepBackwardAt(keys, i, 0);
      var current := StepBackward(keys, key);
      while current in disabledKeys
        invariant 1 <= steps <= stop
        invariant current == keys[Backward(n, i, steps)]
        invariant forall e :: 1 <= e < steps ==> keys[Backward(n, i, e)] in disabledKeys
        decreases stop - steps
      {
        StepBackwardAt(keys, i, steps);
        current := StepBackward(keys, current);
        steps := steps + 1;
      }
      PreviousEnabledAt(keys, disabledKeys, key, steps);
      PreviousEnabledNone(keys, disabledKeys, key);
      r := Some(current);
    }
  }
}
