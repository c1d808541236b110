/**
 * `DonateModal`: the open/closed dialog, the page-scroll lock it holds while
 * open, and the "copied" markers on its copy-to-clipboard fields.
 */
module Donation {

  /** No two fields carry "copied". */
  predicate AtMostOneMarked(marks: seq<bool>)
  {
    forall i, j :: 0 <= i < |marks| && 0 <= j < |marks| && marks[i] && marks[j] ==> i == j
  }

  /** Field `k`, and only field `k`, carries "copied". */
  predicate OnlyMarked(marks: seq<bool>, k: nat)
  {
    forall j :: 0 <= j < |marks| ==> (marks[j] <==> j == k)
  }

  /** `n` fields, none of them marked: what `resetCopyButtons` leaves. */
  function NoneMarked(n: nat): (r: seq<bool>)
    ensures |r| == n && forall j :: 0 <= j < n ==> !r[j]
    ensures AtMostOneMarked(r)
  {
    seq(n, _ => false)
  }

  /** The markers all unmarked except field `k`. */
  function MarkOnly(n: nat, k: nat): (r: seq<bool>)
    requires k < n
    ensures |r| == n && OnlyMarked(r, k) && AtMostOneMarked(r)
  {
    seq(n, j => j == k)
  }

  /**
   * The markers after a click on field `k` whose `data-copy` is `text`, where
   * `written` says whether the clipboard write succeeded. An empty text or a
   * field already marked does nothing; a failed write changes nothing; a
   * successful one leaves exactly field `k` marked.
   */
  function AfterCopy(marks: seq<bool>, text: string, k: nat, written: bool): (r: seq<bool>)
    requires k < |marks|
    ensures |r| == |marks|
    ensures text == "" || marks[k] || !written ==> r == marks
    ensures text != "" && !marks[k] && written ==> OnlyMarked(r, k)
  {
    if text == "" || marks[k] then marks
    else if written then MarkOnly(|marks|, k)
    else marks
  }

  /** A copy never leaves two fields marked. */
  lemma AfterCopyKeepsAtMostOne(marks: seq<bool>, text: string, k: nat, written: bool)
    requires k < |marks| && AtMostOneMarked(marks)
    ensures AtMostOneMarked(AfterCopy(marks, text, k, written))
  {
  }

  /** Right after a successful copy of a field, copying it again does nothing. */
  lemma CopyAgainIsNoOp(marks: seq<bool>, text: string, k: nat, written: bool)
    requires k < |marks|
    ensures var once := AfterCopy(marks, text, k, true);
      AfterCopy(once, text, k, written) == once
  {
  }

  class DonateModal {
    /** Whether the page has the `#donateModal` element. */
    const hasModal: bool
    /** The `data-copy` text of each copy field, in document order. */
    const texts: seq<string>
    /** The "copied" marker of each copy field. */
    const copied: array<bool>
    /** The modal's "active" marker. */
    var active: bool
    /** `document.body.style.overflow`. */
    var overflow: string
    /** The text on the system clipboard. */
    var clipboard: string

    /** One marker per field, no fields without a modal, and at most one field marked. */
    ghost predicate Valid()
      reads this, copied
    {
      copied.Length == |texts| &&
      (!hasModal ==> texts == [] && !active) &&
      AtMostOneMarked(copied[..])
    }

    /**
     * The constructor only looks the modal up and wires listeners: the
     * markers are whatever the page's markup gives them. Fields exist only
     * inside an existing modal, and the markup marks at most one of them.
     */
    constructor (hasModal: bool, texts: seq<string>, active: bool, marks: seq<bool>, overflow: string, clipboard: string)
      requires |marks| == |texts|
      requires hasModal || (texts == [] && !active)
      requires AtMostOneMarked(marks)
      ensures Valid() && fresh(copied)
      ensures this.hasModal == hasModal && this.texts == texts
      ensures this.active == active && copied[..] == marks
      ensures this.overflow == overflow && this.clipboard == clipboard
    {
      this.hasModal := hasModal;
      this.texts := texts;
      this.active := active;
      this.overflow := overflow;
      this.clipboard := clipboard;
      copied := new bool[|texts|](i requires 0 <= i < |marks| => marks[i]);
      new;
      assert copied[..] == marks;
    }

    /** `isOpen`. */
    predicate IsOpen()
      reads this
      ensures IsOpen() ==> hasModal
    {
      hasModal && active
    }

    /** `resetCopyButtons`: clear "copied" on every field. */
    method ResetCopyButtons()
      requires Valid()
      modifies copied
      ensures Valid()
      ensures copied[..] == NoneMarked(copied.Length)
    {
      for i := 0 to copied.Length
        invariant forall j :: 0 <= j < i ==> !copied[j]
        invariant forall j :: i <= j < copied.Length ==> copied[j] == old(copied[j])
      {
        copied[i] := false;
      }
    }

    /** `open`: clear the markers, mark the modal and stop the page scrolling. */
    method Open()
      requires Valid()
      modifies this, copied
      ensures Valid()
      ensures copied[..] == NoneMarked(|texts|)
      ensures active == hasModal && IsOpen() == hasModal && overflow == "hidden"
      ensures clipboard == old(clipboard)
    {
      ResetCopyButtons();
      if hasModal {
        active := true;
      }
      overflow := "hidden";
    }

    /** `close`: unmark the modal and let the page scroll again. */
    method Close()
      requires Valid()
      modifies this
      ensures Valid()
      ensures !active && !IsOpen() && overflow == ""
      ensures clipboard == old(clipboard)
    {
      active := false;
      overflow := "";
    }

    /** The document `keydown` listener: Escape closes the modal only while it is open. */
    method OnKeyDown(key: string)
      requires Valid()
      modifies this
      ensures Valid()
      ensures key == "Escape" && old(IsOpen()) ==> !active && overflow == ""
      ensures !(key == "Escape" && old(IsOpen())) ==> active == old(active) && overflow == old(overflow)
      ensures clipboard == old(clipboard)
    {
      if key == "Escape" && IsOpen() {
        Close();
      }
    }

    /** The modal's `click` listener: only a click on the backdrop itself closes it. */
    method OnModalClick(onBackdrop: bool)
      requires Valid() && hasModal
      modifies this
      ensures Valid()
      ensures onBackdrop ==> !active && overflow == ""
      ensures !onBackdrop ==> active == old(active) && overflow == old(overflow)
      ensures clipboard == old(clipboard)
    {
      if onBackdrop {
        Close();
      }
    }

    /**
     * `copyToClipboard` on field `k`, with the write's completion taken as
     * atomic: `written` says whether the clipboard accepted the text.
     */
    method CopyToClipboard(k: nat, written: bool)
      requires Valid() && k < |texts|
      modifies this, copied
      ensures Valid()
      ensures copied[..] == AfterCopy(old(copied[..]), texts[k], k, written)
      ensures clipboard == (if texts[k] != "" && !old(copied[k]) && written then texts[k] else old(clipboard))
      ensures active == old(active) && overflow == old(overflow)
    {
      var text := texts[k];
      if text == "" || copied[k] {
        return;
      }
      if written {
        clipboard := text;
        ResetCopyButtons();
        copied[k] := true;
        assert copied[..] == MarkOnly(|texts|, k);
      }
    }
  }
}
