/** The delegate on small groups, as a host would drive it from the keyboard. */
module UsageExamples {
  import opened Wrappers
  import opened ActionGroup
  import opened Navigation

  /** Keys A, B, C, D with A and C disabled, left-to-right: Home skips A. */
  method HomeSkipsDisabled() {
    var delegate := new ActionGroupKeyboardDelegate(['A', 'B', 'C', 'D'], Ltr, Horizontal, {'A', 'C'});
    var first := delegate.GetFirstKey();
    assert first == Some('B');
  }

  /** Moving right from B skips C. */
  method RightSkips() {
    var delegate := new ActionGroupKeyboardDelegate(['A', 'B', 'C', 'D'], Ltr, Horizontal, {'A', 'C'});
    var right := delegate.GetKeyRightOf('B');
    assert right == Some('D');
  }

  /** Moving right from D wraps past A to B. */
  method RightWraps() {
    var delegate := new ActionGroupKeyboardDelegate(['A', 'B', 'C', 'D'], Ltr, Horizontal, {'A', 'C'});
    var right := delegate.GetKeyRightOf('D');
    assert right == Some('B');
  }

  /** Moving left from B wraps past A to D. */
  method LeftWraps() {
    var delegate := new ActionGroupKeyboardDelegate(['A', 'B', 'C', 'D'], Ltr, Horizontal, {'A', 'C'});
    var left := delegate.GetKeyLeftOf('B');
    assert left == Some('D');
  }

  /** The same keys right-to-left: left moves forward, right moves backward. */
  method RightToLeft() {
    var delegate := new ActionGroupKeyboardDelegate(['A', 'B', 'C', 'D'], Rtl, Horizontal, {'A', 'C'});
    var left := delegate.GetKeyLeftOf('B');
    assert left == Some('D');
    var right := delegate.GetKeyRightOf('D');
    assert right == Some('B');
  }

  /** Right-to-left does not change down, nor End. */
  method RightToLeftDownAndEnd() {
    var delegate := new ActionGroupKeyboardDelegate(['A', 'B', 'C', 'D'], Rtl, Horizontal, {'A', 'C'});
    var below := delegate.GetKeyBelow('D');
    assert below == Some('B');
    var last := delegate.GetLastKey();
    assert last == Some('D');
  }

  /** A vertical group never flips, whatever the direction. */
  method VerticalRightToLeft() {
    var delegate := new ActionGroupKeyboardDelegate(['A', 'B', 'C'], Rtl, Vertical);
    var left := delegate.GetKeyLeftOf('A');
    assert left == Some('C');
    var above := delegate.GetKeyAbove('A');
    assert above == Some('C');
  }

  /** With every key disabled no query finds a key, Home and End included. */
  method AllDisabled() {
    var delegate := new ActionGroupKeyboardDelegate(['A', 'B', 'C'], Ltr, Horizontal, {'A', 'B', 'C'});
    var next := delegate.GetNextKey('A');
    assert next == None;
    var previous := delegate.GetPreviousKey('C');
    assert previous == None;
    var first := delegate.GetFirstKey();
    assert first == None;
    var last := delegate.GetLastKey();
    assert last == None;
  }

  /** An empty group: Home and End find nothing. */
  method Empty() {
    var delegate := new ActionGroupKeyboardDelegate<char>([], Ltr, Horizontal);
    var first := delegate.GetFirstKey();
    assert first == None;
    var last := delegate.GetLastKey();
    assert last == None;
  }

  /**
   * As many next-key moves as there are keys need not come back to the start:
   * in A, B, C with A disabled, three moves from B go B, C, B, C.
   */
  lemma FullRoundNeedNotReturn()
    ensures var keys, disabled := ['A', 'B', 'C'], {'A'};
      NextEnabled(keys, disabled, NextEnabled(keys, disabled, NextEnabled(keys, disabled, 'B').value).value)
        == Some('C')
  {
    var keys, disabled := ['A', 'B', 'C'], {'A'};
    assert NextEnabled(keys, disabled, 'B') == Some('C');
    assert NextEnabled(keys, disabled, 'C') == Some('B');
  }
}
