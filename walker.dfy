/**
 * The walk over the preference modules that fills the advanced tree
 * (`fill_advanced_prefs`).  Each module with prefs or submodules becomes a
 * grouping item titled with the module's title; under it come one item per
 * listed pref, named `<module name>.<pref name>`, followed by the items of
 * its submodules.  Obsolete and static-text prefs, and prefs whose type the
 * registry cannot name, get no item.
 */
module Walker {
  import opened Wrappers
  import opened Prefs
  import Text

  /** A preference module: `numPrefs` is the registry's own count, `submodules` in visiting order. */
  datatype Module = Module(
    name: Option<string>,
    title: string,
    description: string,
    numPrefs: nat,
    prefs: seq<Pref>,
    submodules: seq<Module>)

  /** The module's parent pointer: none for a top-level module, else the parent's (possibly null) name. */
  datatype Parent = NoParent | ParentModule(name: Option<string>)

  /**
   * A tree item as the walk creates it: column-0 text and tooltip, the
   * type column's text and tooltip, the value column's tooltip (the default
   * value), the pref it carries (None for a grouping item) and its children.
   */
  datatype Item = Item(
    text: string,
    tooltip: string,
    typeText: string,
    typeTooltip: string,
    defaultTooltip: string,
    pref: Option<Pref>,
    children: seq<Item>)

  function Span(s: string): string {
    "<span>" + s + "</span>"
  }

  const EmptyDefaultText := "Default value is empty"

  /** The pref gets a row: it is neither obsolete nor static text, and its type has a name. */
  predicate Listed(p: Pref) {
    !p.value.ObsoleteValue? && !p.value.StaticTextValue? && p.typeName.Some?
  }

  /** A module without a name borrows its parent's; the source dereferences the parent then. */
  predicate NameResolvable(m: Module, parent: Parent) {
    m.name.Some? || parent.ParentModule?
  }

  /** The prefix of the full names of the module's prefs. */
  function Qualifier(m: Module, parent: Parent): string
    requires NameResolvable(m, parent)
  {
    if m.name.Some? then m.name.value else parent.name.GetOr("")
  }

  function PrefItem(p: Pref, qualifier: string, display: (Pref, bool) -> string): Item
    requires Listed(p)
  {
    var default := display(p, true);
    Item(qualifier + "." + p.name, Span(p.description), p.typeName.value, Span(p.typeDescription),
         Span(if |default| < 1 then EmptyDefaultText else default), Some(p), [])
  }

  /** The items for the listed prefs of `ps`, in order. */
  function PrefItems(ps: seq<Pref>, qualifier: string, display: (Pref, bool) -> string): seq<Item>
    decreases |ps|
  {
    if ps == [] then []
    else
      var last := ps[|ps| - 1];
      PrefItems(ps[..|ps| - 1], qualifier, display) +
      (if Listed(last) then [PrefItem(last, qualifier, display)] else [])
  }

  /** What the walk adds for module `m`: nothing, or one grouping item. */
  function ModuleItems(m: Module, parent: Parent, display: (Pref, bool) -> string): seq<Item>
    requires NameResolvable(m, parent)
    decreases m, 1, 0
  {
    if m.numPrefs < 1 && |m.submodules| == 0 then []
    else
      [Item(m.title, Span(m.description), "", "", "", None,
            PrefItems(m.prefs, Qualifier(m, parent), display) +
            SubmoduleItems(m, |m.submodules|, display))]
  }

  /** What the walk adds for the first `k` submodules of `m`. */
  function SubmoduleItems(m: Module, k: nat, display: (Pref, bool) -> string): seq<Item>
    requires k <= |m.submodules|
    decreases m, 0, k
  {
    if k == 0 then []
    else SubmoduleItems(m, k - 1, display) + ModuleItems(m.submodules[k - 1], ParentModule(m.name), display)
  }

  /**
   * The walk's entry point.  A null module `m` or a null root item yields 1 and
   * adds nothing; otherwise the walk yields 0 and adds the module's items.
   */
  method FillAdvancedPrefs(m: Option<Module>, parent: Parent, hasRoot: bool, display: (Pref, bool) -> string)
    returns (ret: nat, added: seq<Item>)
    requires m.Some? ==> NameResolvable(m.value, parent)
    ensures m.None? || !hasRoot ==> ret == 1 && added == []
    ensures m.Some? && hasRoot ==> ret == 0 && added == ModuleItems(m.value, parent, display)
  {
    if m.None? || !hasRoot {
      return 1, [];
    }
    ret, added := FillModule(m.value, parent, display);
  }

  /**
   * The walk for a module known to be non-null under a non-null root: the
   * registry hands the callback only existing submodules and the new
   * grouping item as root.
   */
  method FillModule(m: Module, parent: Parent, display: (Pref, bool) -> string) returns (ret: nat, added: seq<Item>)
    requires NameResolvable(m, parent)
    ensures ret == 0 && added == ModuleItems(m, parent, display)
    decreases m
  {
    if m.numPrefs < 1 && |m.submodules| == 0 {
      return 0, [];
    }
    var qualifier := Qualifier(m, parent);
    var children: seq<Item> := [];
    var i := 0;
    while i < |m.prefs|
      invariant 0 <= i <= |m.prefs|
      invariant children == PrefItems(m.prefs[..i], qualifier, display)
    {
      var p := m.prefs[i];
      assert m.prefs[..i + 1][..i] == m.prefs[..i];
      if Listed(p) {
        children := children + [PrefItem(p, qualifier, display)];
      }
      i := i + 1;
    }
    assert m.prefs[..i] == m.prefs;
    ret := 0;
    if |m.submodules| > 0 {
      // visit the submodules in order, stopping at the first non-zero answer
      var k := 0;
      while k < |m.submodules| && ret == 0
        invariant 0 <= k <= |m.submodules| && ret == 0
        invariant children == PrefItems(m.prefs, qualifier, display) + SubmoduleItems(m, k, display)
      {
        var r, items := FillModule(m.submodules[k], ParentModule(m.name), display);
        children := children + items;
        ret := r;
        k := k + 1;
      }
    } else {
      assert children + SubmoduleItems(m, 0, display) == children;
    }
    added := [Item(m.title, Span(m.description), "", "", "", None, children)];
  }

  /** Every item is either a pref item without children or a grouping item, all the way down. */
  ghost predicate ItemsKeepPrefsAsLeaves(items: seq<Item>)
    decreases items
  {
    forall it :: it in items ==>
      (it.pref.Some? ==> it.children == []) && ItemsKeepPrefsAsLeaves(it.children)
  }

  lemma ItemsKeepPrefsAsLeavesAppend(a: seq<Item>, b: seq<Item>)
    requires ItemsKeepPrefsAsLeaves(a) && ItemsKeepPrefsAsLeaves(b)
    ensures ItemsKeepPrefsAsLeaves(a + b)
  {
    forall it | it in a + b
      ensures (it.pref.Some? ==> it.children == []) && ItemsKeepPrefsAsLeaves(it.children)
    {
      if it in a {
      } else {
        assert it in b;
      }
    }
  }

  /**
   * The pref items of `ps`: each comes from a listed pref of `ps`, is named
   * after it and has no children, and every listed pref of `ps` has one.
   */
  lemma {:induction false} PrefItemsListed(ps: seq<Pref>, qualifier: string, display: (Pref, bool) -> string)
    ensures forall it :: it in PrefItems(ps, qualifier, display) ==>
      it.pref.Some? && Listed(it.pref.value) && it.pref.value in ps &&
      it.text == qualifier + "." + it.pref.value.name && it.children == []
    ensures forall p :: p in ps && Listed(p) ==> PrefItem(p, qualifier, display) in PrefItems(ps, qualifier, display)
    ensures ItemsKeepPrefsAsLeaves(PrefItems(ps, qualifier, display))
    decreases |ps|
  {
    if ps != [] {
      var init := ps[..|ps| - 1];
      var last := ps[|ps| - 1];
      PrefItemsListed(init, qualifier, display);
      assert ps == init + [last];
      var tail := if Listed(last) then [PrefItem(last, qualifier, display)] else [];
      assert ItemsKeepPrefsAsLeaves(tail) by {
        forall it | it in tail
          ensures (it.pref.Some? ==> it.children == []) && ItemsKeepPrefsAsLeaves(it.children)
        {
          assert it.children == [];
        }
      }
      ItemsKeepPrefsAsLeavesAppend(PrefItems(init, qualifier, display), tail);
    }
  }

  /**
   * The column-0 tooltip of every pref item carries the markup around the
   * description, so the search text "span" matches every pref item.
   */
  lemma TooltipMarkupMatchesSpan(p: Pref, qualifier: string, display: (Pref, bool) -> string)
    requires Listed(p)
    ensures Text.ContainsIgnoringCase(PrefItem(p, qualifier, display).tooltip, "span")
  {
    var tip := Text.Lower(PrefItem(p, qualifier, display).tooltip);
    assert tip[1..5] == "span";
    assert "span" <= tip[1..];
  }

  /** The walk adds nothing for a module with no prefs and no submodules, else one grouping item. */
  lemma ModuleItemsShape(m: Module, parent: Parent, display: (Pref, bool) -> string)
    requires NameResolvable(m, parent)
    ensures ModuleItems(m, parent, display) == [] <==> m.numPrefs < 1 && |m.submodules| == 0
    ensures ModuleItems(m, parent, display) != [] ==>
      var it := ModuleItems(m, parent, display)[0];
      |ModuleItems(m, parent, display)| == 1 && it.pref.None? && it.text == m.title &&
      it.children[..|PrefItems(m.prefs, Qualifier(m, parent), display)|] == PrefItems(m.prefs, Qualifier(m, parent), display)
  {
  }

  /** Every item the walk creates for a module keeps pref items as leaves. */
  lemma {:induction false} WalkKeepsPrefsAsLeaves(m: Module, parent: Parent, display: (Pref, bool) -> string)
    requires NameResolvable(m, parent)
    ensures ItemsKeepPrefsAsLeaves(ModuleItems(m, parent, display))
    decreases m, 1, 0
  {
    if !(m.numPrefs < 1 && |m.submodules| == 0) {
      PrefItemsListed(m.prefs, Qualifier(m, parent), display);
      SubmodulesKeepPrefsAsLeaves(m, |m.submodules|, display);
      var children := PrefItems(m.prefs, Qualifier(m, parent), display) + SubmoduleItems(m, |m.submodules|, display);
      ItemsKeepPrefsAsLeavesAppend(PrefItems(m.prefs, Qualifier(m, parent), display), SubmoduleItems(m, |m.submodules|, display));
      var it := ModuleItems(m, parent, display)[0];
      assert it.children == children;
    }
  }

  lemma {:induction false} SubmodulesKeepPrefsAsLeaves(m: Module, k: nat, display: (Pref, bool) -> string)
    requires k <= |m.submodules|
    ensures ItemsKeepPrefsAsLeaves(SubmoduleItems(m, k, display))
    decreases m, 0, k
  {
    if k > 0 {
      SubmodulesKeepPrefsAsLeaves(m, k - 1, display);
      WalkKeepsPrefsAsLeaves(m.submodules[k - 1], ParentModule(m.name), display);
      ItemsKeepPrefsAsLeavesAppend(SubmoduleItems(m, k - 1, display), ModuleItems(m.submodules[k - 1], ParentModule(m.name), display));
    }
  }
}
