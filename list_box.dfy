/**
 * Selection in the renderer's list box.  The entries' `active` classes are an array of
 * booleans, one per entry in list order, and their texts a sequence of the same length.
 * Covered: plain, Ctrl- and Shift-clicks on an entry with the link counter they update,
 * and the Delete, Ctrl+A and Ctrl+C keys.
 */
module ListBox {
  import opened Base

  /** The link counter: invisible, or visible showing a number. */
  datatype LinkCount = Hidden | Shown(n: nat)

  /** Some entry is active. */
  predicate AnyActive(s: seq<bool>)
  {
    exists i :: 0 <= i < |s| && s[i]
  }

  /** Number of active entries. */
  function CountActive(s: seq<bool>): (n: nat)
    ensures n <= |s|
    ensures n == 0 <==> !AnyActive(s)
    decreases |s|
  {
    if |s| == 0 then 0
    else
      var m := |s| - 1;
      var rest := CountActive(s[..m]);
      assert AnyActive(s[..m]) ==> AnyActive(s) by {
        if AnyActive(s[..m]) {
          var i :| 0 <= i < m && s[..m][i];
          assert s[i];
        }
      }
      assert AnyActive(s) && !s[m] ==> AnyActive(s[..m]) by {
        if AnyActive(s) && !s[m] {
          var i :| 0 <= i < |s| && s[i];
          assert s[..m][i];
        }
      }
      rest + (if s[m] then 1 else 0)
  }

  /** What the counter shows after a click: the number of active entries, hidden at zero. */
  function LinkCountOf(s: seq<bool>): LinkCount
  {
    if CountActive(s) > 0 then Shown(CountActive(s)) else Hidden
  }

  /** Index of the first active entry. */
  function FirstActive(s: seq<bool>): (f: nat)
    requires AnyActive(s)
    ensures f < |s| && s[f]
    ensures forall j :: 0 <= j < f ==> !s[j]
    decreases |s|
  {
    if s[0] then 0
    else
      assert AnyActive(s[1..]) by {
        var i :| 0 <= i < |s| && s[i];
        assert s[1..][i - 1];
      }
      1 + FirstActive(s[1..])
  }

  // ---------------------------------------------------------------------------------------
  // Clicks

  /** A plain click first deactivates every entry but the clicked one. */
  function ClearOthers(s: seq<bool>, c: nat): seq<bool>
    requires c < |s|
  {
    seq(|s|, i requires 0 <= i < |s| => if i == c then s[c] else false)
  }

  /** The entries from the clicked one to the first active one, in whichever order they
      come, all active; every other entry as it was. */
  function ShiftRange(s: seq<bool>, c: nat): seq<bool>
    requires c < |s| && AnyActive(s)
  {
    var f := FirstActive(s);
    var lo, hi := if c < f then c else f, if c < f then f else c;
    seq(|s|, i requires 0 <= i < |s| => if lo <= i <= hi then true else s[i])
  }

  /** The entries after a click on entry `c`: a Shift-click while some entry is active
      selects a range; otherwise the clicked entry is toggled, after a plain click has
      cleared the others. */
  function ClickResult(s: seq<bool>, c: nat, ctrl: bool, shift: bool): seq<bool>
    requires c < |s|
  {
    if shift && CountActive(s) > 0 then ShiftRange(s, c)
    else if !ctrl && !shift then ClearOthers(s, c)[c := !s[c]]
    else s[c := !s[c]]
  }

  /** The Shift-click loop: walking the entries in order, it activates every entry from the
      first of (clicked entry, first active entry) and, on reaching the second, activates the
      clicked entry and stops. */
  method ShiftSelect(active: array<bool>, c: nat)
    requires c < active.Length && AnyActive(active[..])
    modifies active
    ensures active[..] == ShiftRange(old(active[..]), c)
  {
    ghost var s := active[..];
    ghost var f := FirstActive(s);
    ghost var lo, hi := if c < f then c else f, if c < f then f else c;
    var seenActive, clicked := false, false;
    var i := 0;
    while i < active.Length
      invariant 0 <= i <= hi
      invariant clicked == (c < i)
      invariant seenActive == (f < i)
      invariant forall j :: 0 <= j < active.Length ==> active[j] == if lo <= j < i then true else s[j]
    {
      if i == c {
        clicked := true;
      }
      if active[i] {
        seenActive := true;
      }
      if (seenActive && !clicked) || (clicked && !seenActive) {
        active[i] := true;
      } else if seenActive && clicked {
        active[c] := true;
        assert active[..] == ShiftRange(s, c);
        break;
      }
      i := i + 1;
    }
  }

  /** The click handler of a list entry; returns what the link counter shows afterwards. */
  method Click(active: array<bool>, c: nat, ctrl: bool, shift: bool) returns (linkCount: LinkCount)
    requires c < active.Length
    modifies active
    ensures active[..] == ClickResult(old(active[..]), c, ctrl, shift)
    ensures linkCount == LinkCountOf(active[..])
  {
    ghost var s := active[..];
    var hadActive := CountActive(active[..]) > 0;
    if !ctrl && !shift {
      for i := 0 to active.Length
        invariant forall j :: 0 <= j < active.Length ==> active[j] == if j < i && j != c then false else s[j]
      {
        if active[i] && i != c {
          active[i] := false;
        }
      }
      assert active[..] == ClearOthers(s, c);
    }
    if shift && hadActive {
      ShiftSelect(active, c);
    } else {
      if active[c] {
        active[c] := false;
      } else {
        active[c] := true;
      }
    }
    linkCount := LinkCountOf(active[..]);
  }

  /** One active entry makes a count of one. */
  lemma {:induction false} CountOfSingle(s: seq<bool>, c: nat)
    requires c < |s| && s[c]
    requires forall i :: 0 <= i < |s| && i != c ==> !s[i]
    ensures CountActive(s) == 1
    decreases |s|
  {
    var m := |s| - 1;
    if c < m {
      CountOfSingle(s[..m], c);
    } else {
      assert !AnyActive(s[..m]);
    }
  }

  /** After a plain click the clicked entry is toggled and no other entry is active, so at
      most one entry is, and the counter shows 1 or is hidden. */
  lemma PlainClickKeepsAtMostOne(s: seq<bool>, c: nat)
    requires c < |s|
    ensures var r := ClickResult(s, c, false, false);
      && |r| == |s|
      && r[c] == !s[c]
      && (forall i :: 0 <= i < |r| && i != c ==> !r[i])
      && CountActive(r) <= 1
      && LinkCountOf(r) == if s[c] then Hidden else Shown(1)
  {
    var r := ClickResult(s, c, false, false);
    if s[c] {
      assert !AnyActive(r);
    } else {
      CountOfSingle(r, c);
    }
  }

  /** A Ctrl-click, or a Shift-click when nothing is active, toggles the clicked entry only. */
  lemma ToggleClick(s: seq<bool>, c: nat, ctrl: bool, shift: bool)
    requires c < |s|
    requires ctrl || shift
    requires shift ==> !AnyActive(s)
    ensures ClickResult(s, c, ctrl, shift) == s[c := !s[c]]
  {
  }

  /** Counting is monotone: an entry-wise larger selection has at least as many entries. */
  lemma {:induction false} CountMonotone(s: seq<bool>, t: seq<bool>)
    requires |s| == |t|
    requires forall i :: 0 <= i < |s| && s[i] ==> t[i]
    ensures CountActive(s) <= CountActive(t)
    decreases |s|
  {
    if |s| > 0 {
      var m := |s| - 1;
      CountMonotone(s[..m], t[..m]);
    }
  }

  /** A Shift-click while some entry is active makes every entry between the clicked one and
      the first active one active, deactivates nothing, leaves the entries outside that range
      as they were, and so never lowers the count. */
  lemma ShiftClickSelectsRange(s: seq<bool>, c: nat, ctrl: bool)
    requires c < |s| && AnyActive(s)
    ensures var r := ClickResult(s, c, ctrl, true);
      var f := FirstActive(s);
      && |r| == |s|
      && (forall i :: 0 <= i < |s| && (c <= i <= f || f <= i <= c) ==> r[i])
      && (forall i :: 0 <= i < |s| && s[i] ==> r[i])
      && (forall i :: 0 <= i < |s| && i < c && i < f ==> r[i] == s[i])
      && (forall i :: 0 <= i < |s| && i > c && i > f ==> r[i] == s[i])
      && CountActive(s) <= CountActive(r)
  {
    var r := ClickResult(s, c, ctrl, true);
    CountMonotone(s, r);
  }

  // ---------------------------------------------------------------------------------------
  // Keys

  /** Ctrl+A: every entry active; the counter shown with the number of entries, even zero. */
  method SelectAll(active: array<bool>) returns (linkCount: LinkCount)
    modifies active
    ensures forall i :: 0 <= i < active.Length ==> active[i]
    ensures linkCount == Shown(active.Length)
  {
    for i := 0 to active.Length
      invariant forall j :: 0 <= j < i ==> active[j]
    {
      active[i] := true;
    }
    linkCount := Shown(active.Length);
  }

  /** A fully selected list counts all its entries. */
  lemma {:induction false} CountAll(s: seq<bool>)
    requires forall i :: 0 <= i < |s| ==> s[i]
    ensures CountActive(s) == |s|
    decreases |s|
  {
    if |s| > 0 {
      CountAll(s[..|s| - 1]);
    }
  }

  /** The texts of the active entries, in list order. */
  function Selected(texts: seq<string>, active: seq<bool>): (r: seq<string>)
    requires |texts| == |active|
    ensures |r| == CountActive(active)
    decreases |texts|
  {
    if |texts| == 0 then []
    else
      var m := |texts| - 1;
      Selected(texts[..m], active[..m]) + (if active[m] then [texts[m]] else [])
  }

  /** Every line followed by a newline, concatenated. */
  function Join(lines: seq<string>): string
    decreases |lines|
  {
    if |lines| == 0 then [] else Join(lines[..|lines| - 1]) + lines[|lines| - 1] + "\n"
  }

  /** What Ctrl+C puts on the clipboard. */
  function ClipText(texts: seq<string>, active: seq<bool>): string
    requires |texts| == |active|
  {
    Join(Selected(texts, active))
  }

  /** The Ctrl+C loop: each active entry's text and a newline, appended in list order. */
  method CopyActive(texts: seq<string>, active: seq<bool>) returns (clipText: string)
    requires |texts| == |active|
    ensures clipText == ClipText(texts, active)
  {
    clipText := "";
    for i := 0 to |texts|
      invariant clipText == Join(Selected(texts[..i], active[..i]))
    {
      SelectedStep(texts, active, i);
      if active[i] {
        JoinStep(Selected(texts[..i], active[..i]), texts[i]);
        clipText := clipText + texts[i] + "\n";
      }
    }
    assert texts[..|texts|] == texts;
    assert active[..|active|] == active;
  }

  /** One more entry of the list: its text is selected after the others' when it is active. */
  lemma SelectedStep(texts: seq<string>, active: seq<bool>, i: nat)
    requires |texts| == |active| && i < |texts|
    ensures active[i] ==>
      Selected(texts[..i + 1], active[..i + 1]) == Selected(texts[..i], active[..i]) + [texts[i]]
    ensures !active[i] ==>
      Selected(texts[..i + 1], active[..i + 1]) == Selected(texts[..i], active[..i])
  {
    assert texts[..i + 1][..i] == texts[..i];
    assert active[..i + 1][..i] == active[..i];
  }

  /** One more line: its text and a newline follow the others'. */
  lemma JoinStep(lines: seq<string>, line: string)
    ensures Join(lines + [line]) == Join(lines) + line + "\n"
  {
    assert (lines + [line])[..|lines|] == lines;
  }

  /** Index of the first newline of `s`, or `|s|` when there is none. */
  function LineEnd(s: string): (k: nat)
    ensures k <= |s|
    decreases |s|
  {
    if |s| == 0 || s[0] == '\n' then 0 else 1 + LineEnd(s[1..])
  }

  /** `s` cut at its newlines; a newline ends a line, and text after the last one is a last line. */
  function SplitLines(s: string): seq<string>
    decreases |s|
  {
    if |s| == 0 then []
    else
      var k := LineEnd(s);
      [s[..k]] + (if k < |s| then SplitLines(s[k + 1..]) else [])
  }

  predicate NoNewline(line: string)
  {
    forall i :: 0 <= i < |line| ==> line[i] != '\n'
  }

  lemma {:induction false} LineEndAfter(line: string, rest: string)
    requires NoNewline(line)
    ensures LineEnd(line + "\n" + rest) == |line|
    decreases |line|
  {
    if |line| > 0 {
      assert (line + "\n" + rest)[1..] == line[1..] + "\n" + rest;
      LineEndAfter(line[1..], rest);
    }
  }

  lemma {:induction false} JoinAppend(xs: seq<string>, ys: seq<string>)
    ensures Join(xs + ys) == Join(xs) + Join(ys)
    decreases |ys|
  {
    if |ys| == 0 {
      assert xs + ys == xs;
    } else {
      var m := |ys| - 1;
      var init, y := ys[..m], ys[m];
      assert ys == init + [y];
      assert xs + ys == (xs + init) + [y];
      JoinAppend(xs, init);
      JoinStep(xs + init, y);
      JoinStep(init, y);
    }
  }

  /** Splitting the joined lines at newlines gives the lines back, when none contains one. */
  lemma {:induction false} SplitJoin(lines: seq<string>)
    requires forall i :: 0 <= i < |lines| ==> NoNewline(lines[i])
    ensures SplitLines(Join(lines)) == lines
    decreases |lines|
  {
    if |lines| > 0 {
      var head, tail := lines[0], lines[1..];
      assert lines == [head] + tail;
      JoinAppend([head], tail);
      assert Join([head]) == head + "\n" by {
        assert [head][..0] == [];
      }
      var s := Join(lines);
      assert s == head + "\n" + Join(tail);
      LineEndAfter(head, Join(tail));
      assert s[..|head|] == head;
      assert s[|head| + 1..] == Join(tail);
      SplitJoin(tail);
    }
  }

  /** The clipboard text holds one line per active entry, in list order, when no entry text
      contains a newline: reading the lines back gives the active entries' texts. */
  lemma ClipboardLines(texts: seq<string>, active: seq<bool>)
    requires |texts| == |active|
    requires forall i :: 0 <= i < |texts| ==> NoNewline(texts[i])
    ensures SplitLines(ClipText(texts, active)) == Selected(texts, active)
    ensures |SplitLines(ClipText(texts, active))| == CountActive(active)
  {
    var sel := Selected(texts, active);
    SelectedFromTexts(texts, active);
    forall i | 0 <= i < |sel|
      ensures NoNewline(sel[i])
    {
      assert sel[i] in texts;
    }
    SplitJoin(sel);
  }

  /** Every selected text is one of the entries' texts. */
  lemma {:induction false} SelectedFromTexts(texts: seq<string>, active: seq<bool>)
    requires |texts| == |active|
    ensures forall x :: x in Selected(texts, active) ==> x in texts
    decreases |texts|
  {
    if |texts| > 0 {
      var m := |texts| - 1;
      SelectedFromTexts(texts[..m], active[..m]);
      assert forall x :: x in texts[..m] ==> x in texts;
    }
  }

  /** The key that was pressed, as far as the handler distinguishes them. */
  datatype Key = DeleteKey | KeyA | KeyC | OtherKey

  /** The element clicked last: none yet, one inside the list box, or one outside it. */
  datatype LastClicked = NothingClicked | InListBox | OutsideListBox

  /** What a key press did besides changing the selection: asked for the active entries to be
      removed, set the counter, wrote the clipboard, or failed on a missing last click. */
  datatype KeyOutcome = KeyOutcome(removeActive: bool, linkCount: Option<LinkCount>, clipboard: Option<string>, threw: bool)

  /** The document's key handler. */
  method KeyDown(active: array<bool>, texts: seq<string>, code: Key, ctrl: bool, last: LastClicked)
    returns (out: KeyOutcome)
    requires |texts| == active.Length
    modifies active
    ensures out.removeActive <==> code == DeleteKey
    ensures out.threw <==> code == KeyA && ctrl && last == NothingClicked
    ensures code == KeyA && ctrl && last == InListBox ==>
      && (forall i :: 0 <= i < active.Length ==> active[i])
      && out.linkCount == Some(Shown(active.Length))
    ensures !(code == KeyA && ctrl && last == InListBox) ==>
      active[..] == old(active[..]) && out.linkCount == None
    ensures out.clipboard == if code == KeyC && ctrl then Some(ClipText(texts, old(active[..]))) else None
  {
    out := KeyOutcome(false, None, None, false);
    if code == DeleteKey {
      out := out.(removeActive := true);
    }
    if code == KeyA && ctrl {
      if last == NothingClicked {
        out := out.(threw := true);
        return;
      }
      if last == InListBox {
        var linkCount := SelectAll(active);
        out := out.(linkCount := Some(linkCount));
      }
    }
    if code == KeyC && ctrl {
      var clipText := CopyActive(texts, active[..]);
      out := out.(clipboard := Some(clipText));
    }
  }
}
