/** The conversation sidebar: one row per tab (a click selects it), a
    delete button on each row shown only while more than one tab exists,
    and a "New Chat" button. The sidebar owns no state: it asks its parent
    to change `tabs` and `activeTab` through `setTabs` and `setActiveTab`,
    and forwards deletions to the parent's `deleteTab`, whose body is not
    part of this model. */
module TabNavigation {
  import opened JsText

  /** The candidate name of the next tab, `Chat ${tabs.length + 1}`: "Chat "
      followed by the decimal text of `count + 1`. */
  function NewTabName(count: nat): (name: string)
    ensures |name| > 5 && name[..5] == "Chat "
    ensures forall i :: 5 <= i < |name| ==> IsDigit(name[i])
    ensures name[5] != '0'
    ensures ParseDecimal(name[5..]) == count + 1
  {
    ParseNumberToString(count + 1);
    "Chat " + NumberToString(count + 1)
  }

  /** Different tab counts give different candidate names. */
  lemma NewTabNameInjective(a: nat, b: nat)
    requires NewTabName(a) == NewTabName(b)
    ensures a == b
  {
  }

  /** The elements of the sidebar that react to a click (the sign-out
      button is left out). */
  datatype ClickTarget = TabRow(index: nat) | DeleteButton(index: nat) | NewChatButton

  /** The element is on screen: rows exist for each tab, and the delete
      buttons only while `tabs.length > 1`. */
  predicate Rendered(tabs: seq<string>, t: ClickTarget) {
    match t
    case TabRow(i) => i < |tabs|
    case DeleteButton(i) => i < |tabs| && |tabs| > 1
    case NewChatButton => true
  }

  /** A call a handler makes into the parent component. */
  datatype Effect = SetActiveTab(index: nat) | SetTabs(newTabs: seq<string>) | DeleteTab(index: nat)

  /** The calls a handler makes, and whether it stopped propagation. */
  datatype Handled = Handled(effects: seq<Effect>, stopped: bool)

  /** The element whose handler a click on `t` bubbles to next: a delete
      button sits inside its tab's row. */
  function Parent(t: ClickTarget): Option<ClickTarget> {
    match t
    case DeleteButton(i) => Some(TabRow(i))
    case _ => None
  }

  /** Each element's own `onClick` handler. Only the delete button stops
      propagation, and only it asks for a deletion, of its own tab. A row
      selects itself. New Chat either makes no call, or replaces `tabs` by
      the old tabs followed by one name not among them and then selects
      that new last tab. */
  function Handle(tabs: seq<string>, t: ClickTarget): (h: Handled)
    ensures h.stopped <==> t.DeleteButton?
    ensures forall e :: e in h.effects && e.DeleteTab? ==> t == DeleteButton(e.index)
    ensures t.DeleteButton? ==> DeleteTab(t.index) in h.effects
    ensures t.TabRow? ==> h.effects == [SetActiveTab(t.index)]
    ensures t.NewChatButton? ==>
              h.effects == [] ||
              (&& |h.effects| == 2 && h.effects[0].SetTabs?
               && |h.effects[0].newTabs| == |tabs| + 1
               && h.effects[0].newTabs[..|tabs|] == tabs
               && h.effects[0].newTabs[|tabs|] !in tabs
               && h.effects[1] == SetActiveTab(|tabs|))
  {
    match t
    case TabRow(i) => Handled([SetActiveTab(i)], false)
    case DeleteButton(i) => Handled([DeleteTab(i)], true)
    case NewChatButton =>
      var newTabName := NewTabName(|tabs|);
      if newTabName !in tabs then Handled([SetTabs(tabs + [newTabName]), SetActiveTab(|tabs|)], false)
      else Handled([], false)
  }

  /** A click: the target's handler runs, then, unless it stopped
      propagation, the handler of the element around it. A click on a
      delete button therefore reaches no other handler; any other click
      runs its target's handler alone, as nothing else encloses it. */
  function Dispatch(tabs: seq<string>, t: ClickTarget): (effects: seq<Effect>)
    ensures t.DeleteButton? ==> effects == [DeleteTab(t.index)]
    ensures !t.DeleteButton? ==> effects == Handle(tabs, t).effects
  {
    var h := Handle(tabs, t);
    match Parent(t)
    case None => h.effects
    case Some(p) => h.effects + (if h.stopped then [] else Handle(tabs, p).effects)
  }

  /** The parent's view of the sidebar's state. */
  datatype View = View(tabs: seq<string>, activeTab: nat)

  /** The state after the parent applies the calls in order; deletion
      requests leave it to the parent's `deleteTab`. A slot changes only
      through a call that sets it, to a value some such call passed. */
  function Apply(v: View, effects: seq<Effect>): (r: View)
    ensures (forall j :: 0 <= j < |effects| ==> !effects[j].SetTabs?) ==> r.tabs == v.tabs
    ensures (forall j :: 0 <= j < |effects| ==> !effects[j].SetActiveTab?) ==> r.activeTab == v.activeTab
    ensures r.tabs != v.tabs ==> SetTabs(r.tabs) in effects
    ensures r.activeTab != v.activeTab ==> SetActiveTab(r.activeTab) in effects
    decreases |effects|
  {
    if effects == [] then v
    else
      var v' := match effects[0]
        case SetActiveTab(i) => v.(activeTab := i)
        case SetTabs(ts) => v.(tabs := ts)
        case DeleteTab(_) => v;
      Apply(v', effects[1..])
  }

  /** The indices a click passes to `deleteTab`: one for each delete call
      and no others (their order is `DeleteRequestsAppend`). */
  function DeleteRequests(effects: seq<Effect>): (r: seq<nat>)
    ensures |r| <= |effects|
    ensures forall i :: 0 <= i < |r| ==> DeleteTab(r[i]) in effects
    ensures forall j :: 0 <= j < |effects| && effects[j].DeleteTab? ==> effects[j].index in r
    ensures (forall j :: 0 <= j < |effects| ==> !effects[j].DeleteTab?) ==> r == []
    decreases |effects|
  {
    if effects == [] then []
    else if effects[0].DeleteTab? then [effects[0].index] + DeleteRequests(effects[1..])
    else DeleteRequests(effects[1..])
  }

  /** Requests keep the order of the calls: those of a later batch of
      calls come after those of an earlier one. */
  lemma {:induction false} DeleteRequestsAppend(first: seq<Effect>, later: seq<Effect>)
    ensures DeleteRequests(first + later) == DeleteRequests(first) + DeleteRequests(later)
    decreases |first|
  {
    if first != [] {
      assert (first + later)[0] == first[0];
      assert (first + later)[1..] == first[1..] + later;
      DeleteRequestsAppend(first[1..], later);
    } else {
      assert first + later == later;
    }
  }

  /** Clicking row `i` selects tab `i` and changes nothing else. */
  lemma SelectTab(v: View, i: nat)
    requires Rendered(v.tabs, TabRow(i))
    ensures Apply(v, Dispatch(v.tabs, TabRow(i))) == v.(activeTab := i)
    ensures DeleteRequests(Dispatch(v.tabs, TabRow(i))) == []
  {
  }

  /** Clicking a delete button asks for that tab's deletion and nothing
      else: propagation is stopped, so the row is not also selected. */
  lemma DeleteClickDoesNotSelect(v: View, i: nat)
    requires Rendered(v.tabs, DeleteButton(i))
    ensures Dispatch(v.tabs, DeleteButton(i)) == [DeleteTab(i)]
    ensures Apply(v, Dispatch(v.tabs, DeleteButton(i))) == v
    ensures DeleteRequests(Dispatch(v.tabs, DeleteButton(i))) == [i]
  {
  }

  /** A deletion can only be requested while more than one tab exists, and
      only for an existing tab. */
  lemma DeleteNeedsSeveralTabs(tabs: seq<string>, t: ClickTarget, i: nat)
    requires Rendered(tabs, t)
    requires i in DeleteRequests(Dispatch(tabs, t))
    ensures |tabs| > 1 && i < |tabs| && t == DeleteButton(i)
  {
  }

  /** "New Chat": when the candidate name is free it is appended after the
      unchanged tabs and becomes the active tab; when it is taken, nothing
      happens, since no other name is tried. */
  lemma NewChat(v: View)
    ensures var name := NewTabName(|v.tabs|);
            var after := Apply(v, Dispatch(v.tabs, NewChatButton));
            && (name !in v.tabs ==> after == View(v.tabs + [name], |v.tabs|))
            && (name in v.tabs ==> after == v)
    ensures DeleteRequests(Dispatch(v.tabs, NewChatButton)) == []
  {
    var name := NewTabName(|v.tabs|);
    var effects := Dispatch(v.tabs, NewChatButton);
    if name !in v.tabs {
      var added := View(v.tabs + [name], v.activeTab);
      assert effects == [SetTabs(v.tabs + [name]), SetActiveTab(|v.tabs|)];
      assert effects[1..] == [SetActiveTab(|v.tabs|)] && effects[1..][1..] == [];
      assert Apply(v, effects) == Apply(added, effects[1..]);
      assert Apply(added, effects[1..]) == Apply(added.(activeTab := |v.tabs|), []);
      assert DeleteRequests(effects) == DeleteRequests(effects[1..]);
    } else {
      assert effects == [];
    }
  }

  /** The tab names "Chat 1", "Chat 2", ... in order, as New Chat builds
      them from a single "Chat 1". */
  predicate Numbered(tabs: seq<string>) {
    forall i :: 0 <= i < |tabs| ==> tabs[i] == NewTabName(i)
  }

  /** On a numbered list New Chat always succeeds and keeps it numbered. */
  lemma NewChatOnNumbered(v: View)
    requires Numbered(v.tabs)
    ensures NewTabName(|v.tabs|) !in v.tabs
    ensures Apply(v, Dispatch(v.tabs, NewChatButton)).activeTab == |v.tabs|
    ensures Numbered(Apply(v, Dispatch(v.tabs, NewChatButton)).tabs)
  {
    NewChat(v);
  }

  /** After a deletion has made the list ["Chat 2", "Chat 3"], the
      candidate "Chat 3" is taken and New Chat does nothing. */
  lemma NewChatBlockedByCollision(activeTab: nat)
    ensures var v := View(["Chat 2", "Chat 3"], activeTab);
            Apply(v, Dispatch(v.tabs, NewChatButton)) == v
  {
    assert NewTabName(2) == "Chat 3";
    NewChat(View(["Chat 2", "Chat 3"], activeTab));
  }

  /** New Chat on ["Chat 1"] gives ["Chat 1", "Chat 2"] with the second tab
      active. */
  lemma NewChatFromOneTab(activeTab: nat)
    ensures Apply(View(["Chat 1"], activeTab), Dispatch(["Chat 1"], NewChatButton))
            == View(["Chat 1", "Chat 2"], 1)
  {
    assert NewTabName(1) == "Chat 2";
    assert NewTabName(1) != "Chat 1";
    NewChat(View(["Chat 1"], activeTab));
  }

  /** The parent's `tabs` and `activeTab` state slots as the sidebar
      changes them. */
  class TabState {
    var tabs: seq<string>
    var activeTab: nat

    function State(): View
      reads this
    {
      View(tabs, activeTab)
    }

    constructor (initialTabs: seq<string>, initialActive: nat)
      ensures tabs == initialTabs && activeTab == initialActive
    {
      tabs, activeTab := initialTabs, initialActive;
    }

    /** A click on an element of the sidebar: the state slots take the
        values the handlers set, and the deletion requests are returned for
        the parent's `deleteTab`. */
    method Click(t: ClickTarget) returns (deleteRequests: seq<nat>)
      requires Rendered(tabs, t)
      modifies this
      ensures State() == Apply(old(State()), Dispatch(old(tabs), t))
      ensures deleteRequests == DeleteRequests(Dispatch(old(tabs), t))
      ensures t.TabRow? ==> tabs == old(tabs) && activeTab == t.index && deleteRequests == []
      ensures t.DeleteButton? ==> tabs == old(tabs) && activeTab == old(activeTab) && deleteRequests == [t.index]
      ensures t.NewChatButton? && NewTabName(|old(tabs)|) !in old(tabs) ==>
                tabs == old(tabs) + [NewTabName(|old(tabs)|)] && activeTab == |old(tabs)|
      ensures t.NewChatButton? && NewTabName(|old(tabs)|) in old(tabs) ==>
                tabs == old(tabs) && activeTab == old(activeTab)
    {
      var effects := Dispatch(tabs, t);
      var after := Apply(State(), effects);
      match t {
        case TabRow(i) => SelectTab(State(), i);
        case DeleteButton(i) => DeleteClickDoesNotSelect(State(), i);
        case NewChatButton => NewChat(State());
      }
      tabs, activeTab := after.tabs, after.activeTab;
      deleteRequests := DeleteRequests(effects);
    }
  }
}
