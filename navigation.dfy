/**
 * The platform's entry page: the menu of analysis modules, the three
 * session-state fields that record the current selection, the two button
 * handlers that change them and the dispatch that renders either the home
 * content or the selected module.
 */
module Navigation {
  import opened Wrappers
  import Seqs

  /** One menu entry: the button label and the module it loads. */
  datatype Item = Item(page: string, moduleName: string)

  /** One menu category: its name, its own module name (always None) and its items in order. */
  datatype Category = Category(name: string, moduleName: Option<string>, items: seq<Item>)

  /** The label of the home category and of the home page. */
  const Home: string := "🏠 首页"

  /** The home category: no module and no items. */
  const HomeCategory: Category := Category(Home, None, [])

  /** The category comparing the focus of AI development in China and the US. */
  const UsChina: Category := Category("🌐 中美AI发展侧重点差异分析", None, [
    Item("💰 投资分析", "us_investment"),
    Item("🎮 GPU产业分析", "gpu"),
    Item("📱 应用分析", "apply"),
    Item("🛒 电商平台分析", "pdd")])

  /** The category of key AI-related industries in China. */
  const KeyIndustries: Category := Category("🏭 中国AI相关重点发展产业分析", None, [
    Item("🚗 自动驾驶分析", "car"),
    Item("🚁 无人机产业分析", "drone"),
    Item("🤖 服务机器人分析", "robot"),
    Item("🏭 智能制造分析", "industry")])

  /** The category of fields of daily life touched by technology. */
  const DailyLife: Category := Category("🏘️ 中国百姓生活与科技创新相关领域分析", None, [
    Item("🍲 食品产业分析", "food"),
    Item("🚦 智慧交通分析", "trafic"),
    Item("🏘️ 智慧住宅分析", "housing")])

  /** MENU_STRUCTURE, in the dictionary's insertion order. */
  const Menu: seq<Category> := [HomeCategory, UsChina, KeyIndustries, DailyLife]

  // ---------------------------------------------------------------------
  // The menu's contents

  /** The module names of some items, in order. */
  function ItemModules(items: seq<Item>): (r: seq<string>)
    ensures |r| == |items| && forall j :: 0 <= j < |items| ==> r[j] == items[j].moduleName
  {
    if items == [] then [] else [items[0].moduleName] + ItemModules(items[1..])
  }

  /** The module names of the first n categories' items, in menu order. */
  function ModulesUpTo(n: nat): (r: seq<string>)
    requires n <= |Menu|
  {
    if n == 0 then [] else ModulesUpTo(n - 1) + ItemModules(Menu[n - 1].items)
  }

  /** The names of all categories, in order. */
  function CategoryNames(cats: seq<Category>): (r: seq<string>)
    ensures |r| == |cats| && forall i :: 0 <= i < |cats| ==> r[i] == cats[i].name
  {
    if cats == [] then [] else [cats[0].name] + CategoryNames(cats[1..])
  }

  /** The page labels of some items, in order. */
  function Pages(items: seq<Item>): (r: seq<string>)
    ensures |r| == |items| && forall j :: 0 <= j < |items| ==> r[j] == items[j].page
  {
    if items == [] then [] else [items[0].page] + Pages(items[1..])
  }

  /** The shape of the menu: the home category first, without items, then three categories of 4, 4 and 3 items. */
  lemma MenuShape()
    ensures |Menu| == 4 && Menu[0] == Category(Home, None, [])
    ensures |Menu[1].items| == 4 && |Menu[2].items| == 4 && |Menu[3].items| == 3
    ensures forall i :: 0 <= i < |Menu| ==> Menu[i].moduleName == None
  {
  }

  /** The module names of the menu, in order. */
  const ModuleNames: seq<string> := ["us_investment", "gpu", "apply", "pdd", "car", "drone", "robot",
                                     "industry", "food", "trafic", "housing"]

  /** Every module name of the menu, category by category. */
  lemma MenuModules()
    ensures ModulesUpTo(|Menu|) == ModuleNames
  {
    var a := ItemModules(UsChina.items);
    var b := ItemModules(KeyIndustries.items);
    var c := ItemModules(DailyLife.items);
    assert a == ["us_investment", "gpu", "apply", "pdd"];
    assert b == ["car", "drone", "robot", "industry"];
    assert c == ["food", "trafic", "housing"];
    assert Menu[1] == UsChina && Menu[2] == KeyIndustries && Menu[3] == DailyLife;
    assert ModulesUpTo(1) == [];
    assert ModulesUpTo(2) == a;
    assert ModulesUpTo(4) == a + b + c;
  }

  lemma ModuleNamesDistinct()
    ensures Seqs.Distinct(ModuleNames)
  {
  }

  /** No module name appears twice in the menu. */
  lemma UniqueModules()
    ensures Seqs.Distinct(ModulesUpTo(|Menu|))
  {
    MenuModules();
    ModuleNamesDistinct();
  }

  /** No two categories share a name. */
  lemma UniqueCategoryNames()
    ensures Seqs.Distinct(CategoryNames(Menu))
  {
    assert CategoryNames(Menu) == [Home, UsChina.name, KeyIndustries.name, DailyLife.name];
  }

  /** Within a category no two pages share a label. */
  lemma UniquePages()
    ensures forall i :: 0 <= i < |Menu| ==> Seqs.Distinct(Pages(Menu[i].items))
  {
    DistinctPages(UsChina);
    DistinctPages(KeyIndustries);
    DistinctPages(DailyLife);
    assert Menu[0].items == [];
  }

  lemma DistinctPages(c: Category)
    requires c in [UsChina, KeyIndustries, DailyLife]
    ensures Seqs.Distinct(Pages(c.items))
  {
    if c == UsChina {
      DistinctFour(c.items);
    } else if c == KeyIndustries {
      DistinctFour(c.items);
    } else {
      assert Pages(c.items) == [c.items[0].page, c.items[1].page, c.items[2].page];
    }
  }

  /** Four items with pairwise different page names list distinct pages. */
  lemma DistinctFour(items: seq<Item>)
    requires |items| == 4
    requires forall i, j :: 0 <= i < j < 4 ==> items[i].page != items[j].page
    ensures Seqs.Distinct(Pages(items))
  {
    assert Pages(items) == [items[0].page, items[1].page, items[2].page, items[3].page];
  }

  /** MENU_STRUCTURE[category]["items"][page]: None for a missing category or page (the KeyError). */
  function LookupModule(category: string, page: string): Option<string> {
    match FindCategory(Menu, category)
    case None => None
    case Some(c) => FindPage(c.items, page)
  }

  function FindCategory(cats: seq<Category>, name: string): (r: Option<Category>)
    ensures r.Some? ==> r.value in cats && r.value.name == name
    ensures r.None? ==> forall i :: 0 <= i < |cats| ==> cats[i].name != name
  {
    if cats == [] then None else if cats[0].name == name then Some(cats[0]) else FindCategory(cats[1..], name)
  }

  function FindPage(items: seq<Item>, page: string): (r: Option<string>)
    ensures r.None? ==> forall j :: 0 <= j < |items| ==> items[j].page != page
  {
    if items == [] then None else if items[0].page == page then Some(items[0].moduleName) else FindPage(items[1..], page)
  }

  /** With distinct names the first category of a name is the one at its position. */
  lemma {:induction false} FindCategoryAt(cats: seq<Category>, i: nat)
    requires i < |cats| && Seqs.Distinct(CategoryNames(cats))
    ensures FindCategory(cats, cats[i].name) == Some(cats[i])
  {
    if i > 0 {
      assert CategoryNames(cats)[0] != CategoryNames(cats)[i];
      assert CategoryNames(cats[1..]) == CategoryNames(cats)[1..];
      FindCategoryAt(cats[1..], i - 1);
    }
  }

  /** With distinct labels the page at position j looks up its own module. */
  lemma {:induction false} FindPageAt(items: seq<Item>, j: nat)
    requires j < |items| && Seqs.Distinct(Pages(items))
    ensures FindPage(items, items[j].page) == Some(items[j].moduleName)
  {
    if j > 0 {
      assert Pages(items)[0] != Pages(items)[j];
      assert Pages(items[1..]) == Pages(items)[1..];
      FindPageAt(items[1..], j - 1);
    }
  }

  // ---------------------------------------------------------------------
  // st.session_state

  /** A value held in the session state. */
  datatype Value = Text(s: string) | NoneValue | Flag(b: bool)

  const CategoryKey: string := "current_category"
  const PageKey: string := "current_page"
  const ModuleKey: string := "current_module"
  const SubModuleKey: string := "is_sub_module"

  /** The three fields of the selection after home is chosen. */
  function Defaults(): map<string, Value> {
    map[CategoryKey := Text(Home), PageKey := Text(Home), ModuleKey := NoneValue]
  }

  /** The state with the three selection fields overwritten. */
  function Select(s: map<string, Value>, category: string, page: string, moduleValue: Value): map<string, Value> {
    s[CategoryKey := Text(category)][PageKey := Text(page)][ModuleKey := moduleValue]
  }

  predicate HasSelection(s: map<string, Value>) {
    CategoryKey in s && PageKey in s && ModuleKey in s
  }

  /** The three fields name item j of category i. */
  predicate SelectsItem(s: map<string, Value>, i: nat, j: nat)
    requires HasSelection(s) && i < |Menu| && j < |Menu[i].items|
  {
    s[CategoryKey] == Text(Menu[i].name) && s[PageKey] == Text(Menu[i].items[j].page)
    && s[ModuleKey] == Text(Menu[i].items[j].moduleName)
  }

  predicate AtHome(s: map<string, Value>)
    requires HasSelection(s)
  {
    s[CategoryKey] == Text(Home) && s[PageKey] == Text(Home) && s[ModuleKey] == NoneValue
  }

  /** The states the page can reach: home, or one item of a non-home category. */
  predicate Reachable(s: map<string, Value>) {
    HasSelection(s) && (AtHome(s) ||
      exists i, j :: 1 <= i < |Menu| && 0 <= j < |Menu[i].items| && SelectsItem(s, i, j))
  }

  /** A session that has not yet stored any of the three fields. */
  predicate Fresh(s: map<string, Value>) {
    CategoryKey !in s && PageKey !in s && ModuleKey !in s
  }

  /** The key of the button of a page of a category. */
  function ButtonKey(category: string, page: string): string {
    "btn_" + category + "_" + page
  }

  const HomeButtonKey: string := "home_button"

  /** The effect of button j of category i when the clicked button is the given one. */
  function Press(s: map<string, Value>, i: nat, j: nat, clicked: Option<string>): (r: map<string, Value>)
    requires i < |Menu| && j < |Menu[i].items|
    ensures s.Keys <= r.Keys
  {
    var item := Menu[i].items[j];
    if clicked == Some(ButtonKey(Menu[i].name, item.page)) then Select(s, Menu[i].name, item.page, Text(item.moduleName))
    else s
  }

  /** The buttons of the first n items of category i, in order. */
  function PressItems(s: map<string, Value>, i: nat, n: nat, clicked: Option<string>): (r: map<string, Value>)
    requires i < |Menu| && n <= |Menu[i].items|
    ensures s.Keys <= r.Keys
  {
    if n == 0 then s else Press(PressItems(s, i, n - 1, clicked), i, n - 1, clicked)
  }

  /** The buttons of the categories from position 1 up to n, in order. */
  function PressCategories(s: map<string, Value>, n: nat, clicked: Option<string>): (r: map<string, Value>)
    requires 1 <= n <= |Menu|
    ensures s.Keys <= r.Keys
  {
    if n == 1 then s else PressItems(PressCategories(s, n - 1, clicked), n - 1, |Menu[n - 1].items|, clicked)
  }

  /** A menu button leaves a reachable state reachable. */
  lemma {:induction false} PressItemsReachable(s: map<string, Value>, i: nat, n: nat, clicked: Option<string>)
    requires 1 <= i < |Menu| && n <= |Menu[i].items| && Reachable(s)
    ensures Reachable(PressItems(s, i, n, clicked))
  {
    if n > 0 {
      var before := PressItems(s, i, n - 1, clicked);
      PressItemsReachable(s, i, n - 1, clicked);
      var after := Press(before, i, n - 1, clicked);
      if after != before {
        assert SelectsItem(after, i, n - 1);
      }
    }
  }

  lemma {:induction false} PressCategoriesReachable(s: map<string, Value>, n: nat, clicked: Option<string>)
    requires 1 <= n <= |Menu| && Reachable(s)
    ensures Reachable(PressCategories(s, n, clicked))
  {
    if n > 1 {
      PressCategoriesReachable(s, n - 1, clicked);
      PressItemsReachable(PressCategories(s, n - 1, clicked), n - 1, |Menu[n - 1].items|, clicked);
    }
  }

  /** When no menu button is clicked the menu changes nothing. */
  lemma {:induction false} PressCategoriesUnclicked(s: map<string, Value>, n: nat, clicked: Option<string>)
    requires 1 <= n <= |Menu|
    requires forall i, j :: 1 <= i < |Menu| && 0 <= j < |Menu[i].items| ==>
      clicked != Some(ButtonKey(Menu[i].name, Menu[i].items[j].page))
    ensures PressCategories(s, n, clicked) == s
  {
    if n > 1 {
      PressCategoriesUnclicked(s, n - 1, clicked);
      PressItemsUnclicked(s, n - 1, |Menu[n - 1].items|, clicked);
    }
  }

  lemma {:induction false} PressItemsUnclicked(s: map<string, Value>, i: nat, n: nat, clicked: Option<string>)
    requires 1 <= i < |Menu| && n <= |Menu[i].items|
    requires forall j :: 0 <= j < |Menu[i].items| ==> clicked != Some(ButtonKey(Menu[i].name, Menu[i].items[j].page))
    ensures PressItems(s, i, n, clicked) == s
  {
    if n > 0 {
      PressItemsUnclicked(s, i, n - 1, clicked);
    }
  }

  /** The clicked button is the one of item j of category i, and no other menu button has its key. */
  predicate OnlyButton(clicked: Option<string>, i: nat, j: nat)
    requires 1 <= i < |Menu| && j < |Menu[i].items|
  {
    && clicked == Some(ButtonKey(Menu[i].name, Menu[i].items[j].page))
    && forall k, l :: 1 <= k < |Menu| && 0 <= l < |Menu[k].items| && (k != i || l != j) ==>
         clicked != Some(ButtonKey(Menu[k].name, Menu[k].items[l].page))
  }

  /** Clicking the one button of item j selects that item once the loop has passed it. */
  lemma {:induction false} PressItemsSelects(s: map<string, Value>, i: nat, n: nat, clicked: Option<string>, j: nat)
    requires 1 <= i < |Menu| && n <= |Menu[i].items| && j < |Menu[i].items| && OnlyButton(clicked, i, j)
    ensures PressItems(s, i, n, clicked) ==
      if n > j then Select(s, Menu[i].name, Menu[i].items[j].page, Text(Menu[i].items[j].moduleName)) else s
  {
    if n > 0 {
      PressItemsSelects(s, i, n - 1, clicked, j);
    }
  }

  /** Clicking the one button of item j of category i selects exactly that item. */
  lemma {:induction false} PressCategoriesSelects(s: map<string, Value>, n: nat, clicked: Option<string>, i: nat, j: nat)
    requires 1 <= n <= |Menu| && 1 <= i < |Menu| && j < |Menu[i].items| && OnlyButton(clicked, i, j)
    ensures PressCategories(s, n, clicked) ==
      if n > i then Select(s, Menu[i].name, Menu[i].items[j].page, Text(Menu[i].items[j].moduleName)) else s
  {
    if n > 1 {
      PressCategoriesSelects(s, n - 1, clicked, i, j);
      if n - 1 == i {
        PressItemsSelects(s, i, |Menu[i].items|, clicked, j);
      } else {
        PressItemsUnclicked(PressCategories(s, n - 1, clicked), n - 1, |Menu[n - 1].items|, clicked);
      }
    }
  }

  /** The home button's key is no menu button's key. */
  lemma HomeButtonDiffers(category: string, page: string)
    ensures HomeButtonKey != ButtonKey(category, page)
  {
    assert ButtonKey(category, page)[0] == 'b';
  }

  /** In a reachable state away from home the menu maps the shown category and page to the loaded module. */
  lemma ReachableAgreesWithMenu(s: map<string, Value>)
    requires Reachable(s) && !AtHome(s)
    ensures s[CategoryKey].Text? && s[PageKey].Text? && s[ModuleKey].Text?
    ensures LookupModule(s[CategoryKey].s, s[PageKey].s) == Some(s[ModuleKey].s)
  {
    var i, j :| 1 <= i < |Menu| && 0 <= j < |Menu[i].items| && SelectsItem(s, i, j);
    UniqueCategoryNames();
    UniquePages();
    FindCategoryAt(Menu, i);
    FindPageAt(Menu[i].items, j);
  }

  /**
   * In every reachable state the stored category is the name of exactly one
   * menu entry, which the `expanded=` test of main.py:113 and :120 compares
   * against.
   */
  lemma OneExpanderOpen(s: map<string, Value>)
    requires Reachable(s)
    ensures exists i :: 0 <= i < |Menu| && s[CategoryKey] == Text(Menu[i].name)
    ensures forall i, k :: 0 <= i < k < |Menu| && s[CategoryKey] == Text(Menu[i].name) ==>
      s[CategoryKey] != Text(Menu[k].name)
  {
    UniqueCategoryNames();
    assert CategoryNames(Menu)[0] == Home;
    forall i, k | 0 <= i < k < |Menu| ensures Menu[i].name != Menu[k].name {
      assert CategoryNames(Menu)[i] != CategoryNames(Menu)[k];
    }
  }

  // ---------------------------------------------------------------------
  // Rendering

  /** What running a module does: its main returns, it has no main, or the import or main raises. */
  datatype Outcome = MainReturns | NoMain | Raises

  /** What the page shows below the sidebar. */
  datatype View = HomeContent | ModuleOutput(name: string) | NoOutput | LoadError

  /** Python truthiness of a stored value. */
  predicate Truthy(v: Value) {
    match v
    case Text(t) => t != []
    case NoneValue => false
    case Flag(b) => b
  }

  /**
   * The main area: the home content exactly on the home page; otherwise,
   * for a truthy module, its main when it has one and an error message
   * when loading or running it raises.
   */
  function RenderView(s: map<string, Value>, outcome: string -> Outcome): (v: View)
    requires PageKey in s && ModuleKey in s
    ensures v == HomeContent <==> s[PageKey] == Text(Home)
    ensures v.ModuleOutput? ==>
      s[PageKey] != Text(Home) && s[ModuleKey] == Text(v.name) && v.name != [] && outcome(v.name) == MainReturns
    ensures (s[PageKey] != Text(Home) && s[ModuleKey].Text? && s[ModuleKey].s != [] &&
             outcome(s[ModuleKey].s) == MainReturns) ==> v == ModuleOutput(s[ModuleKey].s)
    ensures v == NoOutput ==>
      s[PageKey] != Text(Home) && (!Truthy(s[ModuleKey]) || (s[ModuleKey].Text? && outcome(s[ModuleKey].s) == NoMain))
  {
    if s[PageKey] == Text(Home) then HomeContent
    else if !Truthy(s[ModuleKey]) then NoOutput
    else match s[ModuleKey]
      case Text(name) =>
        (match outcome(name)
         case MainReturns => ModuleOutput(name)
         case NoMain => NoOutput
         case Raises => LoadError)
      case _ => LoadError
  }

  /** A reachable state shows the home content or a module of the menu. */
  lemma ReachableRenders(s: map<string, Value>, outcome: string -> Outcome)
    requires Reachable(s)
    ensures RenderView(s, outcome) == HomeContent <==> AtHome(s)
    ensures RenderView(s, outcome).ModuleOutput? ==> RenderView(s, outcome).name in ModuleNames
  {
    MenuModules();
    if !AtHome(s) {
      var i, j :| 1 <= i < |Menu| && 0 <= j < |Menu[i].items| && SelectsItem(s, i, j);
      MenuPagesNotHome(i, j);
      MenuModuleNamed(i, j);
    }
  }

  /** No menu item is labelled like the home page. */
  lemma MenuPagesNotHome(i: nat, j: nat)
    requires i < |Menu| && j < |Menu[i].items|
    ensures Menu[i].items[j].page != Home
  {
    assert Menu[i] in [HomeCategory, UsChina, KeyIndustries, DailyLife];
  }

  /** Every item's module is one of the menu's module names. */
  lemma MenuModuleNamed(i: nat, j: nat)
    requires i < |Menu| && j < |Menu[i].items|
    ensures Menu[i].items[j].moduleName in ModuleNames && Menu[i].items[j].moduleName != []
  {
    assert Menu[i] in [HomeCategory, UsChina, KeyIndustries, DailyLife];
  }

  /** The stored fields after rendering: is_sub_module is set when a truthy module is shown away from home. */
  function RenderState(s: map<string, Value>): map<string, Value>
    requires PageKey in s && ModuleKey in s
  {
    if s[PageKey] != Text(Home) && Truthy(s[ModuleKey]) then s[SubModuleKey := Flag(true)] else s
  }

  // ---------------------------------------------------------------------
  // One run of the script

  /** st.session_state, with the handlers and the parts of the script that touch it. */
  class Session {
    var state: map<string, Value>

    constructor(initial: map<string, Value>)
      ensures state == initial
    {
      state := initial;
    }

    /** Each of the three fields takes its home value only when it is not already stored. */
    method Init()
      modifies this
      ensures state == Defaults() + old(state)
    {
      if CategoryKey !in state {
        state := state[CategoryKey := Text(Home)];
      }
      if PageKey !in state {
        state := state[PageKey := Text(Home)];
      }
      if ModuleKey !in state {
        state := state[ModuleKey := NoneValue];
      }
    }

    /** handle_home_selection. */
    method HandleHome()
      modifies this
      ensures state == Select(old(state), Home, Home, NoneValue)
    {
      state := state[CategoryKey := Text(Home)];
      state := state[PageKey := Text(Home)];
      state := state[ModuleKey := NoneValue];
    }

    /** handle_page_selection. */
    method HandlePage(category: string, page: string, moduleName: string)
      modifies this
      ensures state == Select(old(state), category, page, Text(moduleName))
    {
      state := state[CategoryKey := Text(category)];
      state := state[PageKey := Text(page)];
      state := state[ModuleKey := Text(moduleName)];
    }

    /** The expanders after the first: one button per item, each calling handle_page_selection when clicked. */
    method Sidebar(clicked: Option<string>)
      modifies this
      ensures state == PressCategories(old(state), |Menu|, clicked)
    {
      var i := 1;
      while i < |Menu|
        invariant 1 <= i <= |Menu|
        invariant state == PressCategories(old(state), i, clicked)
      {
        var category := Menu[i];
        if category.items != [] {
          var j := 0;
          while j < |category.items|
            invariant 0 <= j <= |category.items|
            invariant state == PressItems(PressCategories(old(state), i, clicked), i, j, clicked)
          {
            var item := category.items[j];
            if clicked == Some(ButtonKey(category.name, item.page)) {
              HandlePage(category.name, item.page, item.moduleName);
            }
            j := j + 1;
          }
        }
        i := i + 1;
      }
    }

    /** The main area; a truthy module away from home first sets is_sub_module. */
    method Render(outcome: string -> Outcome) returns (view: View)
      requires PageKey in state && ModuleKey in state
      modifies this
      ensures state == RenderState(old(state))
      ensures PageKey in state && ModuleKey in state
      ensures view == RenderView(old(state), outcome) == RenderView(state, outcome)
    {
      view := RenderView(state, outcome);
      if state[PageKey] != Text(Home) && Truthy(state[ModuleKey]) {
        var before := state;
        state := state[SubModuleKey := Flag(true)];
        assert state[PageKey] == before[PageKey] && state[ModuleKey] == before[ModuleKey];
      }
    }

    /**
     * One run: initialise the fields, react to the clicked button (the
     * home button or a menu button, or none), then render. From a fresh or
     * reachable state the run ends in a reachable state.
     */
    method Run(clicked: Option<string>, outcome: string -> Outcome) returns (view: View)
      requires Fresh(state) || Reachable(state)
      modifies this
      ensures state == AfterRun(old(state), clicked)
      ensures Reachable(state)
      ensures view == RenderView(state, outcome)
      ensures clicked == Some(HomeButtonKey) ==> AtHome(state)
      ensures forall i, j :: 1 <= i < |Menu| && 0 <= j < |Menu[i].items| && OnlyButton(clicked, i, j) ==>
        SelectsItem(state, i, j)
      ensures Fresh(old(state)) && clicked.None? ==> AtHome(state)
    {
      ghost var start := state;
      Init();
      InitReachable(start);
      if clicked == Some(HomeButtonKey) {
        HandleHome();
      }
      Sidebar(clicked);
      view := Render(outcome);
      RunFacts(start, clicked);
    }
  }

  /** The state one run leaves: the fields initialised, the home click, the menu loop, then the render flag. */
  function AfterRun(start: map<string, Value>, clicked: Option<string>): map<string, Value> {
    var s1 := Defaults() + start;
    var s2 := if clicked == Some(HomeButtonKey) then Select(s1, Home, Home, NoneValue) else s1;
    RenderState(PressCategories(s2, |Menu|, clicked))
  }

  /** A run from a fresh or reachable state ends reachable, at home after the home click or no click on a fresh session, and on the one item clicked. */
  lemma RunFacts(start: map<string, Value>, clicked: Option<string>)
    requires Fresh(start) || Reachable(start)
    ensures var s := AfterRun(start, clicked);
      && Reachable(s)
      && (clicked == Some(HomeButtonKey) ==> AtHome(s))
      && (forall i, j :: 1 <= i < |Menu| && 0 <= j < |Menu[i].items| && OnlyButton(clicked, i, j) ==> SelectsItem(s, i, j))
      && (Fresh(start) && clicked.None? ==> AtHome(s))
  {
    InitReachable(start);
    var s1 := Defaults() + start;
    var s2 := if clicked == Some(HomeButtonKey) then Select(s1, Home, Home, NoneValue) else s1;
    var s3 := PressCategories(s2, |Menu|, clicked);
    PressCategoriesReachable(s2, |Menu|, clicked);
    ClickOutcome(s2, clicked);
    if RenderState(s3) != s3 {
      ReachableOtherKey(s3, SubModuleKey, Flag(true));
    }
  }

  /** What the menu loop does for the home button, for one menu button, and for no click. */
  lemma ClickOutcome(s: map<string, Value>, clicked: Option<string>)
    requires Reachable(s)
    requires clicked == Some(HomeButtonKey) ==> AtHome(s)
    ensures clicked == Some(HomeButtonKey) ==> AtHome(PressCategories(s, |Menu|, clicked))
    ensures clicked.None? ==> PressCategories(s, |Menu|, clicked) == s
    ensures forall i, j :: 1 <= i < |Menu| && 0 <= j < |Menu[i].items| && OnlyButton(clicked, i, j) ==>
      SelectsItem(PressCategories(s, |Menu|, clicked), i, j)
  {
    if clicked == Some(HomeButtonKey) || clicked.None? {
      forall i, j | 1 <= i < |Menu| && 0 <= j < |Menu[i].items|
        ensures clicked != Some(ButtonKey(Menu[i].name, Menu[i].items[j].page))
      {
        HomeButtonDiffers(Menu[i].name, Menu[i].items[j].page);
      }
      PressCategoriesUnclicked(s, |Menu|, clicked);
    }
    forall i, j | 1 <= i < |Menu| && 0 <= j < |Menu[i].items| && OnlyButton(clicked, i, j)
      ensures SelectsItem(PressCategories(s, |Menu|, clicked), i, j)
    {
      PressCategoriesSelects(s, |Menu|, clicked, i, j);
    }
  }

  /** Initialising a fresh session gives the home state, and a reachable one is left as it is. */
  lemma InitReachable(s: map<string, Value>)
    requires Fresh(s) || Reachable(s)
    ensures Reachable(Defaults() + s)
    ensures Fresh(s) ==> AtHome(Defaults() + s)
    ensures Reachable(s) ==> Defaults() + s == s
  {
    var u := Defaults() + s;
    if Reachable(s) {
      assert u.Keys == s.Keys;
      assert forall k :: k in s ==> u[k] == s[k];
      assert u == s;
    } else {
      assert u[CategoryKey] == Text(Home) && u[PageKey] == Text(Home) && u[ModuleKey] == NoneValue;
    }
  }

  /** Storing a field other than the three keeps a state reachable, and keeps what it selects. */
  lemma ReachableOtherKey(s: map<string, Value>, k: string, v: Value)
    requires Reachable(s) && k != CategoryKey && k != PageKey && k != ModuleKey
    ensures Reachable(s[k := v])
    ensures AtHome(s[k := v]) <==> AtHome(s)
    ensures forall i, j :: 1 <= i < |Menu| && 0 <= j < |Menu[i].items| ==> (SelectsItem(s[k := v], i, j) <==> SelectsItem(s, i, j))
  {
    var t := s[k := v];
    assert t[CategoryKey] == s[CategoryKey] && t[PageKey] == s[PageKey] && t[ModuleKey] == s[ModuleKey];
    if !AtHome(s) {
      var i, j :| 1 <= i < |Menu| && 0 <= j < |Menu[i].items| && SelectsItem(s, i, j);
      assert SelectsItem(t, i, j);
    }
  }
}
