/** A stored craft workspace state made sound: pinned overview first, no duplicate tab, a cap,
    and a selection that names a tab. */
module Craft {
  import opened Wrappers

  const TAB_CAP := 50

  /** A stored value, as far as the sanitizer looks at it. */
  datatype Value =
    | Absent
    | Null
    | Text(text: string)
    | Other
    | List(items: seq<Value>)
    | Object(fields: map<string, Value>)

  function Member(v: Value, name: string): Value {
    if v.Object? && name in v.fields then v.fields[name] else Absent
  }

  datatype Tab = Tab(id: string, kind: string, entityId: string, pinned: bool)

  datatype State = State(tabs: seq<Tab>, activeTabId: string)

  predicate TabKind(kind: string) {
    kind == "craft" || kind == "graph" || kind == "doc" || kind == "artifact" || kind == "drawing"
  }

  /** `craftTabKind` */
  function CraftTabKind(kind: Value): Option<string> {
    if kind == Text("design") then Some("craft")
    else if kind.Text? && TabKind(kind.text) then Some(kind.text)
    else None
  }

  function Overview(craftId: string): Tab {
    Tab(craftId, "craft", craftId, true)
  }

  /** The tab a stored entry describes, if it describes one. */
  function TabOf(t: Value): Option<Tab> {
    var kind, id, entityId := CraftTabKind(Member(t, "kind")), Member(t, "id"), Member(t, "entityId");
    if kind.None? || !id.Text? || !entityId.Text? then None
    else Some(Tab(id.text, kind.value, entityId.text, false))
  }

  /** An entry describes a tab exactly when it is an object with an id, an entity and a kind of the
      five, or of the older name for a craft, and the tab is then not pinned. */
  lemma TabOfExact(t: Value, tab: Tab)
    ensures TabOf(t) == Some(tab) <==>
      && t.Object? && !tab.pinned
      && "id" in t.fields && t.fields["id"] == Text(tab.id)
      && "entityId" in t.fields && t.fields["entityId"] == Text(tab.entityId)
      && "kind" in t.fields && t.fields["kind"].Text?
      && tab.kind in {"craft", "graph", "doc", "artifact", "drawing"}
      && (t.fields["kind"].text == tab.kind || (t.fields["kind"].text == "design" && tab.kind == "craft"))
  {
  }

  function Entries(raw: Value): seq<Value> {
    var list := Member(raw, "tabs");
    if list.List? then list.items else []
  }

  function TabsOf(list: seq<Value>): seq<Tab> {
    if list == [] then []
    else (if TabOf(list[0]).Some? then [TabOf(list[0]).value] else []) + TabsOf(list[1..])
  }

  predicate Clash(a: Tab, b: Tab) {
    a.id == b.id || a.entityId == b.entityId
  }

  predicate ClashesAny(kept: seq<Tab>, t: Tab) {
    exists i :: 0 <= i < |kept| && Clash(kept[i], t)
  }

  /** Greedy first occurrences: each tab that clashes with none kept before it. */
  function Kept(kept: seq<Tab>, tabs: seq<Tab>): seq<Tab>
    decreases tabs
  {
    if tabs == [] then kept
    else Kept(if ClashesAny(kept, tabs[0]) then kept else kept + [tabs[0]], tabs[1..])
  }

  function Capped(tabs: seq<Tab>): seq<Tab> {
    if |tabs| <= TAB_CAP then tabs else tabs[..TAB_CAP]
  }

  function Named(tabs: seq<Tab>, active: Value, craftId: string): string {
    if active.Text? && exists i :: 0 <= i < |tabs| && tabs[i].id == active.text then active.text else craftId
  }

  /** What sanitizing means. */
  function Sane(raw: Value, craftId: string): State {
    var tabs := Capped(Kept([Overview(craftId)], TabsOf(Entries(raw))));
    State(tabs, Named(tabs, Member(raw, "activeTabId"), craftId))
  }

  ghost function Ids(tabs: seq<Tab>): set<string> {
    set i | 0 <= i < |tabs| :: tabs[i].id
  }

  ghost function Entities(tabs: seq<Tab>): set<string> {
    set i | 0 <= i < |tabs| :: tabs[i].entityId
  }

  lemma {:induction false} KeptGrows(kept: seq<Tab>, tabs: seq<Tab>)
    ensures kept <= Kept(kept, tabs)
    decreases tabs
  {
    if tabs != [] {
      KeptGrows(if ClashesAny(kept, tabs[0]) then kept else kept + [tabs[0]], tabs[1..]);
    }
  }

  lemma SeenGrows(tabs: seq<Tab>, t: Tab)
    ensures Ids(tabs + [t]) == Ids(tabs) + {t.id}
    ensures Entities(tabs + [t]) == Entities(tabs) + {t.entityId}
  {
    var more := tabs + [t];
    assert more[|tabs|] == t && forall i :: 0 <= i < |tabs| ==> more[i] == tabs[i];
    forall id | id in Ids(tabs) ensures id in Ids(more) {
      var i :| 0 <= i < |tabs| && tabs[i].id == id;
      assert more[i].id == id;
    }
    forall e | e in Entities(tabs) ensures e in Entities(more) {
      var i :| 0 <= i < |tabs| && tabs[i].entityId == e;
      assert more[i].entityId == e;
    }
  }

  lemma SeenClash(tabs: seq<Tab>, t: Tab)
    ensures ClashesAny(tabs, t) <==> t.id in Ids(tabs) || t.entityId in Entities(tabs)
  {
    if t.id in Ids(tabs) {
      var i :| 0 <= i < |tabs| && tabs[i].id == t.id;
      assert Clash(tabs[i], t);
    }
    if t.entityId in Entities(tabs) {
      var i :| 0 <= i < |tabs| && tabs[i].entityId == t.entityId;
      assert Clash(tabs[i], t);
    }
  }

  /** `sanitizeCraftWorkspaceState` */
  method Sanitize(raw: Value, craftId: string) returns (state: State)
    ensures state == Sane(raw, craftId)
  {
    hide Kept, TabOf, ClashesAny, Clash;
    var tabs := [Overview(craftId)];
    var seenIds, seenEntities := {craftId}, {craftId};
    assert tabs[0] == Overview(craftId);
    var list := Entries(raw);
    ghost var all := Kept(tabs, TabsOf(list));
    var i := 0;
    assert list[0..] == list;
    while i < |list|
      invariant 0 <= i <= |list| && |tabs| <= TAB_CAP
      invariant seenIds == Ids(tabs) && seenEntities == Entities(tabs)
      invariant Kept(tabs, TabsOf(list[i..])) == all
      decreases |list| - i
    {
      KeptGrows(tabs, TabsOf(list[i..]));
      if |tabs| >= TAB_CAP {
        break;
      }
      var t := TabOf(list[i]);
      KeptStep(tabs, list, i);
      i := i + 1;
      if t.None? {
        continue;
      }
      SeenGrows(tabs, t.value);
      SeenClash(tabs, t.value);
      if t.value.id in seenIds || t.value.entityId in seenEntities {
        continue;
      }
      seenIds := seenIds + {t.value.id};
      seenEntities := seenEntities + {t.value.entityId};
      tabs := tabs + [t.value];
    }
    KeptGrows(tabs, TabsOf(list[i..]));
    if i == |list| {
      KeptDone(tabs, list);
    }
    assert tabs == Capped(all);
    var active := Member(raw, "activeTabId");
    state := State(tabs, if active.Text? && active.text in seenIds then active.text else craftId);
  }

  lemma KeptStep(tabs: seq<Tab>, list: seq<Value>, i: nat)
    requires i < |list|
    ensures var t := TabOf(list[i]);
      Kept(tabs, TabsOf(list[i..]))
      == Kept(if t.None? || ClashesAny(tabs, t.value) then tabs else tabs + [t.value], TabsOf(list[i + 1..]))
  {
    hide ClashesAny, TabOf;
    assert list[i..][0] == list[i] && list[i..][1..] == list[i + 1..];
    var t, rest := TabOf(list[i]), TabsOf(list[i + 1..]);
    if t.Some? {
      assert ([t.value] + rest)[1..] == rest;
    } else {
      assert [] + rest == rest;
    }
  }

  lemma KeptDone(tabs: seq<Tab>, list: seq<Value>)
    ensures Kept(tabs, TabsOf(list[|list|..])) == tabs
  {
  }

  // What a sound state is.

  ghost predicate NoClash(tabs: seq<Tab>) {
    forall i, j :: 0 <= i < j < |tabs| ==> tabs[i].id != tabs[j].id && tabs[i].entityId != tabs[j].entityId
  }

  ghost predicate Sound(s: State, craftId: string) {
    && 0 < |s.tabs| <= 50
    && s.tabs[0] == Tab(craftId, "craft", craftId, true)
    && Storable(s.tabs[1..])
    && NoClash(s.tabs)
    && exists i :: 0 <= i < |s.tabs| && s.tabs[i].id == s.activeTabId
  }

  ghost predicate Storable(tabs: seq<Tab>) {
    forall i :: 0 <= i < |tabs| ==> tabs[i].kind in {"craft", "graph", "doc", "artifact", "drawing"} && !tabs[i].pinned
  }

  lemma {:induction false} TabsStorable(list: seq<Value>)
    ensures Storable(TabsOf(list))
  {
    if list != [] {
      TabsStorable(list[1..]);
    }
  }

  lemma {:induction false} KeptNoClash(kept: seq<Tab>, tabs: seq<Tab>)
    requires NoClash(kept) && kept != [] && Storable(kept[1..]) && Storable(tabs)
    ensures NoClash(Kept(kept, tabs)) && Kept(kept, tabs) != [] && Storable(Kept(kept, tabs)[1..])
    decreases tabs
  {
    if tabs != [] {
      var more := if ClashesAny(kept, tabs[0]) then kept else kept + [tabs[0]];
      assert more[1..] == kept[1..] || more[1..] == kept[1..] + [tabs[0]];
      KeptNoClash(more, tabs[1..]);
    }
  }

  /** Whatever was stored, the result is sound. */
  lemma SaneIsSound(raw: Value, craftId: string)
    ensures Sound(Sane(raw, craftId), craftId)
  {
    hide Kept;
    var list := TabsOf(Entries(raw));
    TabsStorable(Entries(raw));
    KeptNoClash([Overview(craftId)], list);
    KeptGrows([Overview(craftId)], list);
    var all := Kept([Overview(craftId)], list);
    var tabs := Capped(all);
    assert forall i :: 0 < i < |tabs| ==> tabs[i] == all[1..][i - 1];
    assert tabs[0].id == craftId;
  }

  /** The kept tabs are a subsequence of the described ones, in order. */
  ghost predicate Subsequence(a: seq<Tab>, b: seq<Tab>) {
    if a == [] then true
    else b != [] && ((a[0] == b[0] && Subsequence(a[1..], b[1..])) || Subsequence(a, b[1..]))
  }

  lemma {:induction false} KeptIsSubsequence(kept: seq<Tab>, tabs: seq<Tab>)
    ensures kept <= Kept(kept, tabs) && Subsequence(Kept(kept, tabs)[|kept|..], tabs)
    decreases tabs
  {
    if tabs != [] {
      if ClashesAny(kept, tabs[0]) {
        KeptIsSubsequence(kept, tabs[1..]);
      } else {
        KeptIsSubsequence(kept + [tabs[0]], tabs[1..]);
        var all := Kept(kept, tabs);
        assert all[|kept|] == (kept + [tabs[0]])[|kept|];
        assert all[|kept|..][1..] == all[|kept| + 1..];
      }
    }
  }

  /** A described tab is dropped only for one that came before it, or for the cap. */
  lemma {:induction false} DroppedForClash(kept: seq<Tab>, tabs: seq<Tab>, i: nat)
    requires i < |tabs|
    ensures tabs[i] in Kept(kept, tabs) || ClashesAny(Kept(kept, tabs[..i]), tabs[i])
    decreases tabs
  {
    var more := if ClashesAny(kept, tabs[0]) then kept else kept + [tabs[0]];
    if i == 0 {
      assert tabs[..0] == [];
      KeptGrows(more, tabs[1..]);
      if !ClashesAny(kept, tabs[0]) {
        assert more[|kept|] == tabs[0];
        assert Kept(kept, tabs)[|kept|] == tabs[0];
      }
    } else {
      DroppedForClash(more, tabs[1..], i - 1);
      assert tabs[..i][1..] == tabs[1..][..i - 1];
    }
  }

  // Stored and read back.

  function Stored(s: State): Value {
    Object(map["tabs" := List(StoredTabs(s.tabs)), "activeTabId" := Text(s.activeTabId)])
  }

  function StoredTab(t: Tab): Value {
    Object(map["id" := Text(t.id), "kind" := Text(t.kind), "entityId" := Text(t.entityId), "pinned" := Other])
  }

  function StoredTabs(tabs: seq<Tab>): seq<Value> {
    if tabs == [] then [] else [StoredTab(tabs[0])] + StoredTabs(tabs[1..])
  }

  lemma StoredTabReads(t: Tab)
    requires TabKind(t.kind) && !t.pinned
    ensures TabOf(StoredTab(t)) == Some(t)
  {
  }

  lemma {:induction false} StoredTabsRead(tabs: seq<Tab>)
    requires Storable(tabs)
    ensures TabsOf(StoredTabs(tabs)) == tabs
  {
    hide TabOf, StoredTab;
    if tabs != [] {
      StoredTabsRead(tabs[1..]);
      StoredTabReads(tabs[0]);
      assert StoredTabs(tabs)[1..] == StoredTabs(tabs[1..]);
    }
  }

  lemma {:induction false} KeptAll(kept: seq<Tab>, tabs: seq<Tab>)
    requires NoClash(kept + tabs)
    ensures Kept(kept, tabs) == kept + tabs
    decreases tabs
  {
    if tabs == [] {
      assert kept + tabs == kept;
    } else {
      var all := kept + tabs;
      assert all[|kept|] == tabs[0];
      assert forall i :: 0 <= i < |kept| ==> all[i] == kept[i];
      assert kept + [tabs[0]] + tabs[1..] == all;
      KeptAll(kept + [tabs[0]], tabs[1..]);
    }
  }

  /** Sanitizing a stored state gives it back exactly when it is sound. */
  lemma FixedPointsAreSound(s: State, craftId: string)
    ensures Sane(Stored(s), craftId) == s <==> Sound(s, craftId)
  {
    SaneIsSound(Stored(s), craftId);
    if Sound(s, craftId) {
      SoundIsFixed(s, craftId);
    }
  }

  lemma SoundIsFixed(s: State, craftId: string)
    requires Sound(s, craftId)
    ensures Sane(Stored(s), craftId) == s
  {
    hide Kept, TabsOf;
    var rest := s.tabs[1..];
    assert s.tabs == [Overview(craftId)] + rest;
    assert Storable(rest);
    OverviewAgain(rest, craftId);
    StoredTabsRead(rest);
    KeptAll([Overview(craftId)], rest);
    assert Entries(Stored(s)) == StoredTabs(s.tabs);
    assert Member(Stored(s), "activeTabId") == Text(s.activeTabId);
  }

  /** A stored overview is read as a tab that clashes with the overview put back. */
  lemma OverviewAgain(rest: seq<Tab>, craftId: string)
    ensures Kept([Overview(craftId)], TabsOf(StoredTabs([Overview(craftId)] + rest)))
         == Kept([Overview(craftId)], TabsOf(StoredTabs(rest)))
  {
    hide TabsOf, ClashesAny;
    var again := Tab(craftId, "craft", craftId, false);
    var list := StoredTabs([Overview(craftId)] + rest);
    assert ([Overview(craftId)] + rest)[1..] == rest;
    assert list[0] == StoredTab(Overview(craftId)) && list[1..] == StoredTabs(rest);
    assert TabOf(list[0]) == Some(again);
    assert ClashesAny([Overview(craftId)], again) by { Itself(craftId); }
    assert list[0..] == list;
    KeptStep([Overview(craftId)], list, 0);
  }

  lemma Itself(craftId: string)
    ensures ClashesAny([Overview(craftId)], Tab(craftId, "craft", craftId, false))
  {
    assert Clash([Overview(craftId)][0], Tab(craftId, "craft", craftId, false));
  }

  lemma SaneIsIdempotent(raw: Value, craftId: string)
    ensures Sane(Stored(Sane(raw, craftId)), craftId) == Sane(raw, craftId)
  {
    SaneIsSound(raw, craftId);
    SoundIsFixed(Sane(raw, craftId), craftId);
  }
}
