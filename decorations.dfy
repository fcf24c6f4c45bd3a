/**
 * The inline roast comments: the comment prefix per language, the decoration
 * built for a line, and the per-document decoration lists that are appended
 * to, trimmed by a timer and pruned when editors close.
 */
module Decorations {

  datatype Position = Position(line: nat, character: nat)

  datatype Range = Range(start: Position, end: Position)

  /** A decoration: where it is shown and the text rendered after the line. */
  datatype Decoration = Decoration(range: Range, contentText: string)

  /** The languages the comment-prefix switch names, by prefix. */
  const HashLanguages: set<string> := {"python", "shellscript", "yaml", "makefile"}
  const MarkupLanguages: set<string> := {"html", "xml", "svg"}
  const StyleLanguages: set<string> := {"css", "less", "scss"}

  /** The comment syntax the roast is displayed in, by language id. */
  function CommentPrefix(languageId: string): (prefix: string)
    ensures prefix in {"// ", "# ", "<!-- ", "/* ", "-- "}
  {
    if languageId in HashLanguages then "# "
    else if languageId in MarkupLanguages then "<!-- "
    else if languageId in StyleLanguages then "/* "
    else if languageId == "lua" then "-- "
    else if languageId == "ruby" then "# "
    else "// "
  }

  /** A language the switch does not list gets the default `// `. */
  lemma UnlistedLanguageUsesSlashes(languageId: string)
    requires languageId !in HashLanguages + MarkupLanguages + StyleLanguages + {"lua", "ruby"}
    ensures CommentPrefix(languageId) == "// "
  {
  }

  /**
   * The decoration for a roast on line `lineNumber` whose text is `lineText`:
   * an empty range at the end of the line, showing the comment prefix
   * followed by the roast.
   */
  function MakeDecoration(languageId: string, lineNumber: nat, lineText: string, roast: string): (d: Decoration)
    ensures d.range.start == d.range.end == Position(lineNumber, |lineText|)
    ensures |d.contentText| == |CommentPrefix(languageId)| + |roast|
    ensures d.contentText[..|CommentPrefix(languageId)|] == CommentPrefix(languageId)
    ensures d.contentText[|CommentPrefix(languageId)|..] == roast
  {
    var lineEnd := |lineText|;
    Decoration(Range(Position(lineNumber, lineEnd), Position(lineNumber, lineEnd)),
               CommentPrefix(languageId) + roast)
  }

  /** The timer's match: equal range and equal rendered text. */
  predicate SameDecoration(a: Decoration, b: Decoration): (same: bool)
    ensures same <==> a == b
  {
    a.range == b.range && a.contentText == b.contentText
  }

  /** `findIndex`: the first position holding a match for `target`, or -1 if there is none. */
  function FindIndex(s: seq<Decoration>, target: Decoration): (r: int)
    ensures -1 <= r < |s|
    ensures r == -1 <==> forall i :: 0 <= i < |s| ==> !SameDecoration(s[i], target)
    ensures 0 <= r ==> SameDecoration(s[r], target)
    ensures forall i :: 0 <= i < r ==> !SameDecoration(s[i], target)
  {
    if s == [] then -1
    else if SameDecoration(s[0], target) then 0
    else
      var k := FindIndex(s[1..], target);
      if k == -1 then -1 else k + 1
  }

  /** The timer's removal: splice out the first match for `target`; no match leaves `s` as it is. */
  function RemoveFirstMatch(s: seq<Decoration>, target: Decoration): (r: seq<Decoration>)
    ensures FindIndex(s, target) == -1 ==> r == s
    ensures FindIndex(s, target) != -1 ==>
      var i := FindIndex(s, target); r == s[..i] + s[i + 1..] && |r| == |s| - 1
  {
    var index := FindIndex(s, target);
    if index != -1 then s[..index] + s[index + 1..] else s
  }

  /** Removal deletes one element equal to the target, or none, and keeps everything else. */
  lemma RemoveFirstMatchMultiset(s: seq<Decoration>, target: Decoration)
    ensures FindIndex(s, target) != -1 ==> multiset(RemoveFirstMatch(s, target)) + multiset{target} == multiset(s)
    ensures FindIndex(s, target) == -1 ==> multiset(RemoveFirstMatch(s, target)) == multiset(s)
  {
    var i := FindIndex(s, target);
    if i != -1 {
      assert s == s[..i] + [s[i]] + s[i + 1..];
      assert s[i] == target;
    }
  }

  /** A decoration pushed onto a list with no match for it is found at the end. */
  lemma FindPushed(s: seq<Decoration>, d: Decoration)
    requires FindIndex(s, d) == -1
    ensures FindIndex(s + [d], d) == |s|
  {
    var t := s + [d];
    assert SameDecoration(t[|s|], d);
  }

  /**
   * The life of one roast comment: pushing a decoration and removing it by
   * match immediately after gives back the list's contents, and gives back the list
   * itself when no equal decoration was already shown.
   */
  lemma AddThenRemove(s: seq<Decoration>, d: Decoration)
    ensures multiset(RemoveFirstMatch(s + [d], d)) == multiset(s)
    ensures FindIndex(s, d) == -1 ==> RemoveFirstMatch(s + [d], d) == s
  {
    var t := s + [d];
    assert SameDecoration(t[|s|], d);
    var i := FindIndex(t, d);
    assert i != -1;
    RemoveFirstMatchMultiset(t, d);
    var removed := multiset(RemoveFirstMatch(t, d));
    assert removed + multiset{d} == multiset(s) + multiset{d};
    assert removed == removed + multiset{d} - multiset{d};
    assert multiset(s) == multiset(s) + multiset{d} - multiset{d};
    if FindIndex(s, d) == -1 {
      FindPushed(s, d);
      assert RemoveFirstMatch(t, d) == t[..|s|] + t[|s| + 1..];
      assert t[..|s|] == s;
      assert t[|s| + 1..] == [];
    }
  }

  /** The decoration array of one document, shared by the store and by each pending timer. */
  class DecorationList {
    var items: seq<Decoration>

    constructor ()
      ensures items == []
    {
      items := [];
    }

    /** `decorations.push(...)`. */
    method Push(d: Decoration)
      modifies this
      ensures items == old(items) + [d]
    {
      items := items + [d];
    }

    /**
     * The timer callback: splices out the first decoration matching `target`
     * and reports whether it found one (and so re-applied the decorations).
     */
    method RemoveMatching(target: Decoration) returns (removed: bool)
      modifies this
      ensures removed <==> FindIndex(old(items), target) != -1
      ensures items == RemoveFirstMatch(old(items), target)
    {
      var index := FindIndex(items, target);
      removed := index != -1;
      if removed {
        items := items[..index] + items[index + 1..];
      }
    }
  }

  /** `activeDecorations`: document URI to that document's decoration list. */
  class DecorationStore {
    var activeDecorations: map<string, DecorationList>

    /** No two documents share a list. */
    ghost predicate Valid()
      reads this
    {
      forall a, b :: a in activeDecorations && b in activeDecorations && a != b ==>
        activeDecorations[a] != activeDecorations[b]
    }

    constructor ()
      ensures activeDecorations == map[] && Valid()
    {
      activeDecorations := map[];
    }

    /**
     * Gets or creates the list for `editorId` and pushes `d` onto it, exactly
     * one element at the end; returns the list, which the removal timer keeps.
     * Every other document's list is the same object with the same contents.
     */
    method AddDecoration(editorId: string, d: Decoration) returns (decorations: DecorationList)
      requires Valid()
      modifies this, activeDecorations.Values
      ensures Valid()
      ensures activeDecorations.Keys == old(activeDecorations.Keys) + {editorId}
      ensures activeDecorations[editorId] == decorations
      ensures editorId in old(activeDecorations) ==>
        decorations == old(activeDecorations[editorId]) && decorations.items == old(decorations.items) + [d]
      ensures editorId !in old(activeDecorations) ==> fresh(decorations) && decorations.items == [d]
      ensures forall id :: id in old(activeDecorations) && id != editorId ==>
        activeDecorations[id] == old(activeDecorations[id]) && activeDecorations[id].items == old(activeDecorations[id].items)
    {
      if editorId !in activeDecorations {
        var created := new DecorationList();
        activeDecorations := activeDecorations[editorId := created];
      }
      decorations := activeDecorations[editorId];
      decorations.Push(d);
    }

    /**
     * The visible-editors handler: drops the list of every document that is
     * not among the visible editors and keeps the others as they are.
     */
    method PruneClosed(visibleEditorIds: seq<string>)
      requires Valid()
      modifies this
      ensures Valid()
      ensures activeDecorations.Keys == old(activeDecorations.Keys) * set id | id in visibleEditorIds
      ensures forall id :: id in activeDecorations ==> activeDecorations[id] == old(activeDecorations[id])
    {
      var visible := set id | id in visibleEditorIds;
      var entriesToRemove: seq<string> := [];
      var unvisited := activeDecorations.Keys;
      while unvisited != {}
        invariant unvisited <= activeDecorations.Keys
        invariant forall id :: id in entriesToRemove <==> id in activeDecorations.Keys - unvisited && id !in visible
        decreases unvisited
      {
        var editorId :| editorId in unvisited;
        if editorId !in visible {
          entriesToRemove := entriesToRemove + [editorId];
        }
        unvisited := unvisited - {editorId};
      }
      var j := 0;
      while j < |entriesToRemove|
        invariant 0 <= j <= |entriesToRemove|
        invariant forall id :: id in activeDecorations <==> id in old(activeDecorations) && id !in entriesToRemove[..j]
        invariant forall id :: id in activeDecorations ==> activeDecorations[id] == old(activeDecorations[id])
      {
        activeDecorations := activeDecorations - {entriesToRemove[j]};
        assert entriesToRemove[..j + 1] == entriesToRemove[..j] + [entriesToRemove[j]];
        j := j + 1;
      }
      assert entriesToRemove[..j] == entriesToRemove;
    }

    /** `deactivate`: forgets every document's list. */
    method Clear()
      modifies this
      ensures activeDecorations == map[] && Valid()
    {
      activeDecorations := map[];
    }
  }
}
