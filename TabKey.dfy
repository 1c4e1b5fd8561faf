/**
 The `keydown` handler every textarea gets: pressing Tab replaces the
 current selection with one tab character and collapses the caret just
 after it, instead of moving the focus to the next control.
 */
module TabKey {

  /** The key code the handler reacts to. */
  const TabKeyCode := 9

  /** A textarea's text together with its collapsed caret. */
  datatype Edit = Edit(text: string, caret: nat)

  /**
   The edit the handler performs for a selection `selStart..selEnd`:
   the text before the selection, a tab, then the text after it; the
   caret lands right after the tab.
   */
  function InsertTab(s: string, selStart: nat, selEnd: nat): (r: Edit)
    requires selStart <= selEnd <= |s|
    ensures |r.text| == |s| - (selEnd - selStart) + 1
    ensures r.caret == selStart + 1 <= |r.text|
    ensures r.text[..selStart] == s[..selStart]
    ensures r.text[selStart] == '\t'
    ensures r.text[selStart + 1..] == s[selEnd..]
  {
    Edit(s[..selStart] + "\t" + s[selEnd..], selStart + 1)
  }

  /**
   The edit is fully determined by its contract: any text that keeps the
   prefix, holds a tab at the selection start and keeps the suffix is the
   one the handler writes.
   */
  lemma InsertTabDetermined(s: string, selStart: nat, selEnd: nat, t: string)
    requires selStart <= selEnd <= |s|
    requires selStart < |t|
    requires t[..selStart] == s[..selStart]
    requires t[selStart] == '\t'
    requires t[selStart + 1..] == s[selEnd..]
    ensures t == InsertTab(s, selStart, selEnd).text
  {
  }

  /**
   Only the selected text is lost: putting it back in place of the tab
   gives the original text.
   */
  lemma InsertTabReplacesSelection(s: string, selStart: nat, selEnd: nat)
    requires selStart <= selEnd <= |s|
    ensures var r := InsertTab(s, selStart, selEnd);
      r.text[..r.caret - 1] + s[selStart..selEnd] + r.text[r.caret..] == s
  {
  }

  /**
   Pressing Tab twice at a collapsed caret leaves two tabs there and the
   caret after both.
   */
  lemma TabTwice(s: string, k: nat)
    requires k <= |s|
    ensures var once := InsertTab(s, k, k);
      InsertTab(once.text, once.caret, once.caret) == Edit(s[..k] + "\t\t" + s[k..], k + 2)
  {
  }

  /** A textarea: its value and its selection, as the browser keeps them. */
  class Textarea {
    var value: string
    var selectionStart: nat
    var selectionEnd: nat

    /** The browser keeps the selection ordered and inside the value. */
    ghost predicate Valid()
      reads this
    {
      selectionStart <= selectionEnd <= |value|
    }

    constructor (text: string, selStart: nat, selEnd: nat)
      requires selStart <= selEnd <= |text|
      ensures Valid()
      ensures value == text && selectionStart == selStart && selectionEnd == selEnd
    {
      value := text;
      selectionStart := selStart;
      selectionEnd := selEnd;
    }

    /**
     The keydown handler. For the Tab key it rewrites the value, moves the
     caret and reports the event as consumed (the handler returns false,
     so the focus stays); any other key changes nothing.
     */
    method KeyDown(keyCode: int) returns (consumed: bool)
      requires Valid()
      modifies this
      ensures Valid()
      ensures consumed == (keyCode == TabKeyCode)
      ensures consumed ==>
        var r := InsertTab(old(value), old(selectionStart), old(selectionEnd));
        value == r.text && selectionStart == r.caret && selectionEnd == r.caret
      ensures !consumed ==>
        value == old(value) && selectionStart == old(selectionStart) && selectionEnd == old(selectionEnd)
    {
      consumed := false;
      if keyCode == TabKeyCode {
        var start := selectionStart;
        var end := selectionEnd;
        value := value[..start] + "\t" + value[end..];
        selectionEnd := start + 1;
        selectionStart := selectionEnd;
        consumed := true;
      }
    }
  }
}
