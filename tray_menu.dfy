/**
 * The tray menu of the main process.  The menu is a list of items; `AddTrayItem` puts an
 * item in front unless one with the same id is already there, and `RemoveTrayItem` removes
 * the first item with a given id.  The download/abort swap and the hide/maximize swap are
 * built from the two, and after each swap the tray is given a menu built from the items.
 */
module TrayMenu {
  import opened Base

  /** What clicking an item does. */
  datatype Action = Hide | AddUrl | Download | Location | Clear | Exit | Maximize | Abort

  /** A menu item; the label is looked up in the language table and may be missing. */
  datatype MenuItem = MenuItem(id: string, caption: Option<string>, kind: string, click: Action)

  /** Some item has id `id`. */
  predicate HasId(items: seq<MenuItem>, id: string)
  {
    exists k :: 0 <= k < |items| && items[k].id == id
  }

  /** No two items share an id. */
  predicate UniqueIds(items: seq<MenuItem>)
  {
    forall i, j :: 0 <= i < j < |items| ==> items[i].id != items[j].id
  }

  /** Position of the first item with id `id`. */
  function IndexOfId(items: seq<MenuItem>, id: string): (k: nat)
    requires HasId(items, id)
    ensures k < |items| && items[k].id == id
    ensures forall j :: 0 <= j < k ==> items[j].id != id
    decreases |items|
  {
    if items[0].id == id then 0
    else
      assert HasId(items[1..], id) by {
        var k :| 0 <= k < |items| && items[k].id == id;
        assert items[1..][k - 1].id == id;
      }
      1 + IndexOfId(items[1..], id)
  }

  /** The items after `AddTrayItem(item)`. */
  function WithItem(items: seq<MenuItem>, item: MenuItem): seq<MenuItem>
  {
    if HasId(items, item.id) then items else [item] + items
  }

  /** The items after `RemoveTrayItem(id)`. */
  function WithoutId(items: seq<MenuItem>, id: string): seq<MenuItem>
  {
    if HasId(items, id) then
      var k := IndexOfId(items, id);
      items[..k] + items[k + 1..]
    else items
  }

  /** Remove the item `gone`, then add `item`: the shape of every swap in the main process. */
  function Swap(items: seq<MenuItem>, gone: string, item: MenuItem): seq<MenuItem>
  {
    WithItem(WithoutId(items, gone), item)
  }

  /** The label of `key` in the language table, missing when the table has none. */
  function Label(language: map<string, string>, key: string): Option<string>
  {
    if key in language then Some(language[key]) else None
  }

  function DownloadItem(language: map<string, string>): MenuItem
  {
    MenuItem("download", Label(language, "download"), "normal", Download)
  }

  function AbortItem(language: map<string, string>): MenuItem
  {
    MenuItem("abort", Label(language, "abort"), "normal", Abort)
  }

  function HideItem(language: map<string, string>): MenuItem
  {
    MenuItem("hide", Label(language, "hide"), "normal", Hide)
  }

  function MaximizeItem(language: map<string, string>): MenuItem
  {
    MenuItem("maximize", Label(language, "maximize"), "normal", Maximize)
  }

  /** The menu built when the renderer reports its language. */
  function Template(language: map<string, string>): seq<MenuItem>
  {
    [ HideItem(language),
      MenuItem("addUrl", Label(language, "addUrl"), "normal", AddUrl),
      DownloadItem(language),
      MenuItem("location", Label(language, "location"), "normal", Location),
      MenuItem("clear", Label(language, "clear"), "normal", Clear),
      MenuItem("close", Label(language, "close"), "normal", Exit) ]
  }

  /** The main process's tray state: the menu's items, the menu last given to the tray, the
      window's hidden flag and the language table. */
  class Shell {
    var trayItems: seq<MenuItem>
    var shown: seq<MenuItem>
    var hidden: bool
    var language: map<string, string>

    /** Start-up: an empty menu, a visible window, no language table yet. */
    constructor ()
      ensures trayItems == [] && shown == [] && !hidden && language == map[]
      ensures Valid()
    {
      trayItems, shown, hidden, language := [], [], false, map[];
    }

    /** Ids are unique: true of the start-up menu and of the template, kept by every method. */
    predicate Valid()
      reads this
    {
      UniqueIds(trayItems)
    }

    /** `addTrayItem`: nothing when an item with the same id exists, else the item in front. */
    method AddTrayItem(id: string, caption: Option<string>, kind: string, click: Action)
      modifies this`trayItems
      ensures trayItems == WithItem(old(trayItems), MenuItem(id, caption, kind, click))
    {
      for i := 0 to |trayItems|
        invariant forall j :: 0 <= j < i ==> trayItems[j].id != id
      {
        if trayItems[i].id == id {
          return;
        }
      }
      trayItems := [MenuItem(id, caption, kind, click)] + trayItems;
    }

    /** `removeTrayItem`: the first item with id `id` is cut out. */
    method RemoveTrayItem(id: string)
      modifies this`trayItems
      ensures trayItems == WithoutId(old(trayItems), id)
    {
      var i := 0;
      while i < |trayItems|
        invariant 0 <= i <= |trayItems|
        invariant trayItems == old(trayItems)
        invariant forall j :: 0 <= j < i ==> trayItems[j].id != id
      {
        if trayItems[i].id == id {
          trayItems := trayItems[..i] + trayItems[i + 1..];
          return;
        }
        i := i + 1;
      }
    }

    /** The 'lang' message: the language table is stored and the menu rebuilt from the template. */
    method OnLang(selected: map<string, string>)
      modifies this
      ensures language == selected
      ensures trayItems == Template(selected) && shown == trayItems
      ensures hidden == old(hidden)
      ensures Valid()
    {
      language := selected;
      trayItems := Template(language);
      shown := trayItems;
      TemplateIdsUnique(selected);
    }

    /** The 'add_abort' message: "download" out, "abort" in. */
    method OnAddAbort()
      modifies this
      ensures trayItems == Swap(old(trayItems), "download", AbortItem(language)) && shown == trayItems
      ensures hidden == old(hidden) && language == old(language)
      ensures old(Valid()) ==> Valid()
    {
      RemoveTrayItem("download");
      AddTrayItem("abort", Label(language, "abort"), "normal", Abort);
      shown := trayItems;
      SwapKeepsIdsUnique(old(trayItems), "download", AbortItem(language));
    }

    /** The 'remove_abort' message: "abort" out, "download" in. */
    method OnRemoveAbort()
      modifies this
      ensures trayItems == Swap(old(trayItems), "abort", DownloadItem(language)) && shown == trayItems
      ensures hidden == old(hidden) && language == old(language)
      ensures old(Valid()) ==> Valid()
    {
      RemoveTrayItem("abort");
      AddTrayItem("download", Label(language, "download"), "normal", Download);
      shown := trayItems;
      SwapKeepsIdsUnique(old(trayItems), "abort", DownloadItem(language));
    }

    /** The window's 'hide' event: hidden, and "hide" swapped for "maximize". */
    method OnHide()
      modifies this
      ensures hidden
      ensures trayItems == Swap(old(trayItems), "hide", MaximizeItem(language)) && shown == trayItems
      ensures language == old(language)
      ensures old(Valid()) ==> Valid()
    {
      hidden := true;
      RemoveTrayItem("hide");
      AddTrayItem("maximize", Label(language, "maximize"), "normal", Maximize);
      shown := trayItems;
      SwapKeepsIdsUnique(old(trayItems), "hide", MaximizeItem(language));
    }

    /** The window's 'show' event: visible, and "maximize" swapped back for "hide". */
    method OnShow()
      modifies this
      ensures !hidden
      ensures trayItems == Swap(old(trayItems), "maximize", HideItem(language)) && shown == trayItems
      ensures language == old(language)
      ensures old(Valid()) ==> Valid()
    {
      hidden := false;
      RemoveTrayItem("maximize");
      AddTrayItem("hide", Label(language, "hide"), "normal", Hide);
      shown := trayItems;
      SwapKeepsIdsUnique(old(trayItems), "maximize", HideItem(language));
    }
  }

  // ---------------------------------------------------------------------------------------
  // Properties of the two list operations and of the swaps

  /** The template menu has unique ids. */
  lemma TemplateIdsUnique(language: map<string, string>)
    ensures UniqueIds(Template(language))
  {
  }

  /** Adding an item whose id is present changes nothing; adding one whose id is absent puts
      it in front of the unchanged items.  Either way the id is then present, nothing but
      the item is added, and unique ids stay unique. */
  lemma AddTrayItemSpec(items: seq<MenuItem>, item: MenuItem)
    ensures HasId(items, item.id) ==> WithItem(items, item) == items
    ensures !HasId(items, item.id) ==>
      && WithItem(items, item)[0] == item
      && WithItem(items, item)[1..] == items
    ensures HasId(WithItem(items, item), item.id)
    ensures forall x :: x in WithItem(items, item) ==> x in items || x == item
    ensures UniqueIds(items) ==> UniqueIds(WithItem(items, item))
  {
    if !HasId(items, item.id) {
      var r := [item] + items;
      assert r[0].id == item.id;
      assert r[1..] == items;
    }
  }

  /** Removing an absent id changes nothing; removing a present one drops exactly the first
      item with that id and keeps the others in order, adding nothing. */
  lemma RemoveTrayItemSpec(items: seq<MenuItem>, id: string)
    ensures !HasId(items, id) ==> WithoutId(items, id) == items
    ensures HasId(items, id) ==>
      var k := IndexOfId(items, id);
      && |WithoutId(items, id)| == |items| - 1
      && (forall j :: 0 <= j < k ==> WithoutId(items, id)[j] == items[j])
      && (forall j :: k <= j < |items| - 1 ==> WithoutId(items, id)[j] == items[j + 1])
    ensures forall x :: x in WithoutId(items, id) ==> x in items
  {
    if HasId(items, id) {
      var k := IndexOfId(items, id);
      var front, back := items[..k], items[k + 1..];
      assert WithoutId(items, id) == front + back;
      forall j | 0 <= j < k
        ensures (front + back)[j] == items[j]
      {
      }
      forall j | k <= j < |items| - 1
        ensures (front + back)[j] == items[j + 1]
      {
        assert (front + back)[j] == back[j - k];
      }
      forall x | x in front + back
        ensures x in items
      {
        if x in front {
          var j :| 0 <= j < |front| && front[j] == x;
          assert items[j] == x;
        } else {
          var j :| 0 <= j < |back| && back[j] == x;
          assert items[j + k + 1] == x;
        }
      }
    }
  }

  /** On a menu with unique ids, removing an id leaves ids unique and the id gone. */
  lemma RemoveKeepsIdsUnique(items: seq<MenuItem>, id: string)
    requires UniqueIds(items)
    ensures UniqueIds(WithoutId(items, id))
    ensures forall j :: 0 <= j < |WithoutId(items, id)| ==> WithoutId(items, id)[j].id != id
  {
    if HasId(items, id) {
      var k := IndexOfId(items, id);
      var r := WithoutId(items, id);
      RemoveTrayItemSpec(items, id);
      forall j | 0 <= j < |r|
        ensures r[j].id != id
      {
        assert r[j] == items[if j < k then j else j + 1];
      }
      forall i, j | 0 <= i < j < |r|
        ensures r[i].id != r[j].id
      {
        assert r[i] == items[if i < k then i else i + 1];
        assert r[j] == items[if j < k then j else j + 1];
      }
    } else {
      forall j | 0 <= j < |items|
        ensures items[j].id != id
      {
      }
    }
  }

  /** A swap keeps ids unique. */
  lemma SwapKeepsIdsUnique(items: seq<MenuItem>, gone: string, item: MenuItem)
    ensures UniqueIds(items) ==> UniqueIds(Swap(items, gone, item))
  {
    if UniqueIds(items) {
      RemoveKeepsIdsUnique(items, gone);
      AddTrayItemSpec(WithoutId(items, gone), item);
    }
  }

  /** Number of items with id `id`. */
  function Occurrences(items: seq<MenuItem>, id: string): nat
    decreases |items|
  {
    if |items| == 0 then 0 else (if items[0].id == id then 1 else 0) + Occurrences(items[1..], id)
  }

  /** An id absent from the list occurs zero times. */
  lemma {:induction false} OccurrencesOfAbsent(items: seq<MenuItem>, id: string)
    requires forall j :: 0 <= j < |items| ==> items[j].id != id
    ensures Occurrences(items, id) == 0
    decreases |items|
  {
    if |items| > 0 {
      OccurrencesOfAbsent(items[1..], id);
    }
  }

  /** With unique ids, a present id occurs exactly once. */
  lemma {:induction false} OccurrencesUnique(items: seq<MenuItem>, id: string)
    requires UniqueIds(items) && HasId(items, id)
    ensures Occurrences(items, id) == 1
    decreases |items|
  {
    if items[0].id == id {
      forall j | 0 <= j < |items[1..]|
        ensures items[1..][j].id != id
      {
        assert items[1..][j] == items[j + 1];
      }
      OccurrencesOfAbsent(items[1..], id);
    } else {
      var k :| 0 <= k < |items| && items[k].id == id;
      assert items[1..][k - 1].id == id;
      OccurrencesUnique(items[1..], id);
    }
  }

  /** On a menu with unique ids, swapping `gone` for an item with another id removes `gone`,
      leaves the new id present exactly once, and puts the item in front when its id was
      absent before. */
  lemma SwapEffect(items: seq<MenuItem>, gone: string, item: MenuItem)
    requires UniqueIds(items) && gone != item.id
    ensures var r := Swap(items, gone, item);
      && !HasId(r, gone)
      && Occurrences(r, item.id) == 1
      && (!HasId(items, item.id) ==> r[0] == item && r[1..] == WithoutId(items, gone))
  {
    var rest := WithoutId(items, gone);
    RemoveTrayItemSpec(items, gone);
    RemoveKeepsIdsUnique(items, gone);
    AddTrayItemSpec(rest, item);
    var r := Swap(items, gone, item);
    forall j | 0 <= j < |r|
      ensures r[j].id != gone
    {
      if r != rest {
        assert r == [item] + rest;
        if j > 0 {
          assert r[j] == rest[j - 1];
        }
      }
    }
    OccurrencesUnique(r, item.id);
    if !HasId(items, item.id) {
      forall j | 0 <= j < |rest|
        ensures rest[j].id != item.id
      {
        assert rest[j] in items;
      }
    }
  }

  /** After 'add_abort' on a menu with unique ids, "download" is gone and "abort" is present
      exactly once, in front if it was not there before; 'remove_abort' does the reverse. */
  lemma AbortSwapEffect(items: seq<MenuItem>, language: map<string, string>)
    requires UniqueIds(items)
    ensures var r := Swap(items, "download", AbortItem(language));
      && !HasId(r, "download") && Occurrences(r, "abort") == 1
      && (!HasId(items, "abort") ==> r[0] == AbortItem(language))
    ensures var r := Swap(items, "abort", DownloadItem(language));
      && !HasId(r, "abort") && Occurrences(r, "download") == 1
      && (!HasId(items, "download") ==> r[0] == DownloadItem(language))
  {
    SwapEffect(items, "download", AbortItem(language));
    SwapEffect(items, "abort", DownloadItem(language));
  }

  /** The window's 'hide' handler on a menu with unique ids leaves "maximize" once and no
      "hide"; the 'show' handler does the reverse. */
  lemma HideShowSwapEffect(items: seq<MenuItem>, language: map<string, string>)
    requires UniqueIds(items)
    ensures var r := Swap(items, "hide", MaximizeItem(language));
      && !HasId(r, "hide") && Occurrences(r, "maximize") == 1
    ensures var r := Swap(items, "maximize", HideItem(language));
      && !HasId(r, "maximize") && Occurrences(r, "hide") == 1
  {
    SwapEffect(items, "hide", MaximizeItem(language));
    SwapEffect(items, "maximize", HideItem(language));
  }

  /** A swap repeated changes nothing more: the window handlers registered again on every
      'lang' message all run the same swap, and only the first has an effect. */
  lemma SwapIdempotent(items: seq<MenuItem>, gone: string, item: MenuItem)
    requires UniqueIds(items) && gone != item.id
    ensures Swap(Swap(items, gone, item), gone, item) == Swap(items, gone, item)
  {
    var once := Swap(items, gone, item);
    SwapEffect(items, gone, item);
    AddTrayItemSpec(WithoutId(items, gone), item);
    assert WithoutId(once, gone) == once;
    AddTrayItemSpec(once, item);
  }

  /** A download followed by its end: on a menu with unique ids holding "download" and no
      "abort", 'add_abort' then 'remove_abort' gives the menu with the download item moved
      to the front, everything else in its place. */
  lemma AbortRoundTrip(items: seq<MenuItem>, language: map<string, string>)
    requires UniqueIds(items) && HasId(items, "download") && !HasId(items, "abort")
    ensures Swap(Swap(items, "download", AbortItem(language)), "abort", DownloadItem(language))
         == [DownloadItem(language)] + WithoutId(items, "download")
  {
    var rest := WithoutId(items, "download");
    var mid := Swap(items, "download", AbortItem(language));
    SwapEffect(items, "download", AbortItem(language));
    assert mid == [AbortItem(language)] + rest by {
      assert mid[0] == AbortItem(language) && mid[1..] == rest;
    }
    assert WithoutId(mid, "abort") == rest by {
      assert mid[0].id == "abort";
      assert IndexOfId(mid, "abort") == 0;
    }
    RemoveKeepsIdsUnique(items, "download");
    assert !HasId(rest, "download");
  }
}
