/**
 The store object of ga.js: a nested array that is written in place and printed by loops.
 */
module ExtensibleStore {
  import opened Wrappers
  import opened Numbers
  import opened SparseStore

  // What a caller may pass: a string, a whole number given by the text it prints as, or anything else.
  datatype Arg = Text(s: string) | Whole(s: string) | Other

  class Extensible {
    var f: Store

    constructor ()
      ensures f == []
    {
      f := [];
    }

    method Assign(a: nat, kind: Kind, c: nat, d: string)
      modifies this
      ensures f == SetSlot(old(f), a, kind, c, d)
    {
      var p := Project(None, None);
      if a < |f| && f[a].Some? {
        p := f[a].value;
      }
      var list: List := [];
      if p.Of(kind).Some? {
        list := p.Of(kind).value;
      }
      list := Put(list, c, Some(d));
      f := Put(f, a, Some(p.With(kind, Some(list))));
    }

    // Keys must be strings, values whole numbers; anything else is refused.
    method SetKey(a: nat, c: nat, d: Arg) returns (ok: bool)
      modifies this
      ensures ok == d.Text? && f == if ok then SetSlot(old(f), a, Keys, c, d.s) else old(f)
    {
      if !d.Text? {
        return false;
      }
      Assign(a, Keys, c, d.s);
      ok := true;
    }

    method SetValue(a: nat, c: nat, d: Arg) returns (ok: bool)
      modifies this
      ensures ok == d.Whole? && f == if ok then SetSlot(old(f), a, Values, c, d.s) else old(f)
    {
      if !d.Whole? {
        return false;
      }
      Assign(a, Values, c, d.s);
      ok := true;
    }

    method Lookup(a: nat, kind: Kind, c: nat) returns (r: Option<string>)
      ensures r == Get(f, a, kind, c)
    {
      r := None;
      if a < |f| && f[a].Some? && f[a].value.Of(kind).Some? {
        r := At(f[a].value.Of(kind).value, c);
      }
    }

    // Clears one list and then, when no list is left, the project.
    method ClearLists(a: nat, kind: Kind)
      modifies this
      ensures f == ClearList(old(f), a, kind)
    {
      if a < |f| && f[a].Some? && f[a].value.Of(kind).Some? {
        var p := f[a].value.With(kind, None);
        f := f[a := Some(p)];
        var kinds := [Keys, Values];
        var empty := true;
        var d := 0;
        while d < 2 && empty
          invariant 0 <= d <= 2
          invariant empty <==> forall k :: 0 <= k < d ==> p.Of(kinds[k]).None?
          decreases 2 - d, empty
        {
          if p.Of(kinds[d]).Some? {
            empty := false;
          }
          d := d + 1;
        }
        if empty {
          assert p.Of(kinds[0]).None? && p.Of(kinds[1]).None?;
          f := f[a := None];
        }
      }
    }

    // Prints all projects.
    method Render() returns (text: string)
      ensures text == StoreText(f, 0)
    {
      text := "";
      for b := 0 to |f|
        invariant text + StoreText(f, b) == StoreText(f, 0)
      {
        if f[b].Some? {
          var p := RenderProject(f[b].value);
          StoreTextStep(f, b, text);
          text := text + (Decimal(b) + p);
        } else {
          StoreTextStep(f, b, text);
        }
      }
    }

    // Prints another store's projects, then those of this one that the other lacks.
    method RenderOver(other: Extensible) returns (text: string)
      ensures text == StoreText(other.f, 0) + StoreText(Missing(f, other.f), 0)
    {
      text := other.Render();
      ghost var g := Missing(f, other.f);
      ghost var head := text;
      for c := 0 to |f|
        invariant text + StoreText(g, c) == head + StoreText(g, 0)
      {
        StoreTextStep(g, c, text);
        if f[c].Some? && At(other.f, c).None? {
          var p := RenderProject(f[c].value);
          text := text + (Decimal(c) + p);
        }
      }
    }
  }

  lemma StoreTextStep(f: Store, b: nat, head: string)
    requires b < |f|
    ensures head + StoreText(f, b) ==
      (head + (if f[b].Some? then Decimal(b) + ProjectText(f[b].value) else "")) + StoreText(f, b + 1)
    ensures head + "" == head
  {
  }

  // The lists of one project, the first one named unless it is the list of keys.
  method RenderProject(p: Project) returns (b: string)
    ensures b == ProjectText(p)
  {
    b := "";
    var named := false;
    if p.keys.Some? {
      b := RenderList(p.keys.value);
    } else {
      named := true;
    }
    if p.values.Some? {
      var list := RenderList(p.values.value);
      b := b + ((if named then "v" else "") + list);
    }
    assert p.values.None? ==> b + "" == b;
  }

  // The entries of one list between brackets: a gap marker where the index is not the expected one.
  method RenderList(e: List) returns (b: string)
    ensures b == ListText(e)
  {
    var c: seq<string> := [];
    for i := 0 to |e|
      invariant c + ItemTexts(e, i) == ItemTexts(e, 0)
    {
      ItemTextsStep(e, i, c);
      if e[i].Some? {
        var item := "";
        if i != 1 && (i == 0 || e[i - 1].None?) {
          item := item + (Decimal(i) + "!");
        }
        assert "" + (Decimal(i) + "!") == Decimal(i) + "!";
        var escaped := EscapeText(e[i].value);
        item := item + escaped;
        c := c + [item];
      }
    }
    assert c + [] == c;
    b := "(" + Join(c) + ")";
  }

  lemma ItemTextsStep(e: List, i: nat, head: seq<string>)
    requires i < |e|
    ensures head + ItemTexts(e, i) == (head + (if e[i].Some? then [ItemText(e, i)] else [])) + ItemTexts(e, i + 1)
  {
  }

  method EscapeText(s: string) returns (t: string)
    ensures t == Escape(s)
  {
    t := "";
    for i := 0 to |s|
      invariant t + Escape(s[i..]) == Escape(s)
    {
      assert s[i..][1..] == s[i + 1..] && s[i..][0] == s[i];
      assert t + (EscapeChar(s[i]) + Escape(s[i + 1..])) == (t + EscapeChar(s[i])) + Escape(s[i + 1..]);
      t := t + EscapeChar(s[i]);
    }
    assert s[|s|..] == "";
  }
}
