/** Decoration bookkeeping: the editor's rendering surface, which holds the live decorations
    and issues their ids, the session dictionary from decoration id to tag range, and the
    three helpers that drive them (`markTags`, `RemoveDecoration`, `ColorRange`). */
module Decorations {
  import opened Tags

  /** Decoration ids are opaque to the helpers; the surface issues them from a counter. */
  type DecorationId = nat

  datatype Option<T> = None | Some(value: T)

  /** The options of a decoration that matter here: its content class, glyph-margin class
      and minimap colour. */
  datatype DecorationOptions = DecorationOptions(className: string, glyphMarginClassName: string, minimapColor: string)

  datatype Decoration = Decoration(range: Range, options: DecorationOptions)

  /** `enmStatusColor`. */
  datatype StatusColor = Done | Current

  /** The look `markTags` gives every match. */
  const MatchOptions: DecorationOptions := DecorationOptions("decorationContent", "decorationGlyphMargin", "#FFFF00")

  /** The closed table `ColorRange` selects its look from. */
  function StatusOptions(status: StatusColor): DecorationOptions
  {
    match status
    case Done => DecorationOptions("decorationContentDone", "decorationGlyphMarginDone", "#90EE90")
    case Current => DecorationOptions("decorationContentCurrent", "decorationGlyphMarginCurrent", "#bbfaf9")
  }

  /** The table gives each status its own look, none of them the look of a plain match. */
  lemma StatusOptionsDistinct(a: StatusColor, b: StatusColor)
    ensures StatusOptions(a) != MatchOptions
    ensures StatusOptions(a) == StatusOptions(b) <==> a == b
    ensures StatusOptions(a).minimapColor == (if a == Done then "#90EE90" else "#bbfaf9")
  {
  }

  // ---------------------------------------------------------------------------------------
  // The rendering surface

  /** The live decorations by id, and the next id to issue. */
  datatype Surface = Surface(attached: map<DecorationId, Decoration>, nextId: DecorationId)

  /** Every live id was issued before, so the next id is fresh. */
  ghost predicate Valid(s: Surface)
  {
    forall id :: id in s.attached ==> id < s.nextId
  }

  datatype Delta = Delta(surface: Surface, ids: seq<DecorationId>)

  function Elements(ids: seq<DecorationId>): set<DecorationId>
  {
    set id | id in ids
  }

  /** Attach `add`, one fresh id per decoration, in order. */
  function AttachAll(s: Surface, add: seq<Decoration>): Delta
    decreases |add|
  {
    if add == [] then Delta(s, [])
    else
      var rest := AttachAll(Surface(s.attached[s.nextId := add[0]], s.nextId + 1), add[1..]);
      Delta(rest.surface, [s.nextId] + rest.ids)
  }

  /** A batch takes the ids `nextId`, `nextId + 1`, ... in order, each bound to its
      decoration, and leaves every other entry as it was. */
  lemma {:induction false} AttachAllFacts(s: Surface, add: seq<Decoration>)
    ensures var r := AttachAll(s, add);
      && |r.ids| == |add|
      && r.surface.nextId == s.nextId + |add|
      && (forall i :: 0 <= i < |add| ==>
            && r.ids[i] == s.nextId + i
            && r.ids[i] in r.surface.attached
            && r.surface.attached[r.ids[i]] == add[i])
      && (forall id :: id in r.surface.attached <==> id in s.attached || s.nextId <= id < s.nextId + |add|)
      && (forall id :: id in s.attached && !(s.nextId <= id < s.nextId + |add|) ==>
            r.surface.attached[id] == s.attached[id])
    decreases |add|
  {
    if add != [] {
      var t := Surface(s.attached[s.nextId := add[0]], s.nextId + 1);
      AttachAllFacts(t, add[1..]);
      var rest := AttachAll(t, add[1..]);
      var r := AttachAll(s, add);
      assert r.ids == [s.nextId] + rest.ids;
      forall i | 1 <= i < |add|
        ensures r.ids[i] == s.nextId + i && r.surface.attached[r.ids[i]] == add[i]
      {
        assert r.ids[i] == rest.ids[i - 1] && add[i] == add[1..][i - 1];
      }
    }
  }

  /** `DeltaDecorations(remove, add)`: detach the ids in `remove` (unknown ones are ignored)
      and attach `add`, one fresh id per decoration, in order. */
  function ApplyDelta(s: Surface, remove: seq<DecorationId>, add: seq<Decoration>): Delta
  {
    AttachAll(Surface(s.attached - Elements(remove), s.nextId), add)
  }

  /** What a delta does: the returned ids are fresh and in order, each bound to its
      decoration; the live ids are the old ones not removed plus the new ones; kept entries
      are unchanged; the surface stays valid. */
  lemma ApplyDeltaFacts(s: Surface, remove: seq<DecorationId>, add: seq<Decoration>)
    ensures var r := ApplyDelta(s, remove, add);
      && |r.ids| == |add|
      && r.surface.nextId == s.nextId + |add|
      && (forall i :: 0 <= i < |add| ==>
            && r.ids[i] == s.nextId + i
            && r.ids[i] in r.surface.attached
            && r.surface.attached[r.ids[i]] == add[i])
      && (forall id :: id in r.surface.attached <==>
            (id in s.attached && id !in remove) || s.nextId <= id < s.nextId + |add|)
      && (Valid(s) ==> Valid(r.surface))
      && (Valid(s) ==> forall id :: id in s.attached && id !in remove ==>
            r.surface.attached[id] == s.attached[id])
  {
    AttachAllFacts(Surface(s.attached - Elements(remove), s.nextId), add);
  }

  /** `ResetDeltaDecorations`: detach everything; ids are never reissued. */
  function Reset(s: Surface): (r: Surface)
    ensures Valid(r) && r.nextId == s.nextId
    ensures |r.attached| == 0
  {
    Surface(map[], s.nextId)
  }

  /** Removing one id and adding nothing detaches exactly that id. */
  lemma RemoveOne(s: Surface, id: DecorationId)
    ensures ApplyDelta(s, [id], []) == Delta(Surface(s.attached - {id}, s.nextId), [])
  {
    assert Elements([id]) == {id};
  }

  /** Removing one id takes the live count down by one exactly when that id was live. */
  lemma RemoveCount(s: Surface, id: DecorationId)
    ensures |ApplyDelta(s, [id], []).surface.attached| == |s.attached| - (if id in s.attached then 1 else 0)
  {
    RemoveOne(s, id);
    MapRemoveCount(s.attached, id);
  }

  /** Replacing (optionally) one id by one new decoration detaches that id and binds the
      decoration to the next id, which was not live. */
  lemma ReplaceOne(s: Surface, id: Option<DecorationId>, d: Decoration)
    requires Valid(s)
    ensures var remove := if id.Some? then [id.value] else [];
      var gone := if id.Some? then {id.value} else {};
      && s.nextId !in s.attached
      && ApplyDelta(s, remove, [d]) == Delta(Surface((s.attached - gone)[s.nextId := d], s.nextId + 1), [s.nextId])
  {
    var remove := if id.Some? then [id.value] else [];
    var gone := if id.Some? then {id.value} else {};
    assert Elements(remove) == gone;
    ApplyDeltaFacts(s, remove, [d]);
    var r := ApplyDelta(s, remove, [d]);
    var e := (s.attached - gone)[s.nextId := d];
    assert r.surface.attached.Keys == e.Keys;
    assert r.surface.attached == e;
    assert r.ids == [s.nextId];
  }

  /** Replacing one id by one new decoration keeps the live count when the id was live and
      grows it by one otherwise; with no id to replace it grows by one. */
  lemma RecolorCount(s: Surface, id: Option<DecorationId>, d: Decoration)
    requires Valid(s)
    ensures var remove := if id.Some? then [id.value] else [];
      |ApplyDelta(s, remove, [d]).surface.attached|
        == |s.attached| + (if id.Some? && id.value in s.attached then 0 else 1)
  {
    ReplaceOne(s, id, d);
    var gone := if id.Some? then {id.value} else {};
    if id.Some? {
      MapRemoveCount(s.attached, id.value);
    } else {
      assert s.attached - gone == s.attached;
    }
    assert s.nextId !in s.attached - gone;
  }

  lemma MapRemoveCount(m: map<DecorationId, Decoration>, x: DecorationId)
    ensures |m - {x}| == |m| - (if x in m then 1 else 0)
  {
    if x in m {
      assert (m - {x}).Keys + {x} == m.Keys;
      assert |(m - {x}).Keys + {x}| == |(m - {x}).Keys| + 1;
    } else {
      assert m - {x} == m;
    }
  }

  /** Replacing an id that is not live is the same as adding one decoration. */
  lemma RecolorUnknownIsAdd(s: Surface, id: DecorationId, d: Decoration)
    requires id !in s.attached
    ensures ApplyDelta(s, [id], [d]) == ApplyDelta(s, [], [d])
  {
    assert Elements([id]) == {id} && Elements([]) == {};
    assert s.attached - {id} == s.attached - {};
  }

  /** `RemoveDecoration` called on each id of `ids` in turn. */
  function RemoveEach(s: Surface, ids: seq<DecorationId>): Surface
    decreases |ids|
  {
    if ids == [] then s else RemoveEach(ApplyDelta(s, [ids[0]], []).surface, ids[1..])
  }

  lemma {:induction false} RemoveEachKeys(s: Surface, ids: seq<DecorationId>)
    ensures forall id :: id in RemoveEach(s, ids).attached <==> id in s.attached && id !in ids
    decreases |ids|
  {
    if ids != [] {
      RemoveOne(s, ids[0]);
      RemoveEachKeys(ApplyDelta(s, [ids[0]], []).surface, ids[1..]);
      assert forall id :: id in ids <==> id == ids[0] || id in ids[1..];
    }
  }

  /** After a reset and a batch add, removing every returned id one by one leaves nothing
      live. */
  lemma RemoveEachAfterBatch(s: Surface, add: seq<Decoration>)
    ensures var batch := ApplyDelta(Reset(s), [], add);
      |RemoveEach(batch.surface, batch.ids).attached| == 0
  {
    var batch := ApplyDelta(Reset(s), [], add);
    ApplyDeltaFacts(Reset(s), [], add);
    RemoveEachKeys(batch.surface, batch.ids);
    forall id | id in batch.surface.attached ensures id in batch.ids {
      assert batch.ids[id - s.nextId] == id;
    }
    assert RemoveEach(batch.surface, batch.ids).attached == map[];
  }


  // ---------------------------------------------------------------------------------------
  // The editor and the session dictionary

  /** The editor the helpers drive: its buffer, its rendering surface, and the lines it has
      revealed, oldest first. */
  class Editor {
    const lines: seq<string>
    var surface: Surface
    var revealed: seq<int>

    constructor (lines: seq<string>)
      ensures this.lines == lines && surface == Surface(map[], 0) && revealed == []
    {
      this.lines := lines;
      surface := Surface(map[], 0);
      revealed := [];
    }

    method DeltaDecorations(remove: seq<DecorationId>, add: seq<Decoration>) returns (ids: seq<DecorationId>)
      modifies this
      ensures Delta(surface, ids) == ApplyDelta(old(surface), remove, add)
      ensures revealed == old(revealed)
    {
      var delta := ApplyDelta(surface, remove, add);
      surface, ids := delta.surface, delta.ids;
    }

    method ResetDeltaDecorations()
      modifies this
      ensures surface == Reset(old(surface)) && revealed == old(revealed)
    {
      surface := Reset(surface);
    }

    method RevealLineInCenter(lineNumber: int)
      modifies this
      ensures revealed == old(revealed) + [lineNumber] && surface == old(surface)
    {
      revealed := revealed + [lineNumber];
    }
  }

  /** The session's `Dictionary<string, Range>` from decoration id to tag range. */
  class RangeDictionary {
    var entries: map<DecorationId, Range>

    constructor ()
      ensures entries == map[]
    {
      entries := map[];
    }

    /** `Dictionary.Add`, which throws on a key already present. */
    method Add(key: DecorationId, value: Range)
      requires key !in entries
      modifies this
      ensures entries == old(entries)[key := value]
    {
      entries := entries[key := value];
    }
  }


  // ---------------------------------------------------------------------------------------
  // The helpers

  /** The most matches the search is asked for. */
  const MaxMatches := 10000

  datatype Outcome = Pass | Fail(error: TagError)

  /** The `foreach` of `markTags`: expand each match in turn and give it the match look;
      the first match that does not expand stops the loop. */
  method MatchDecorations(matches: seq<Range>, lines: seq<string>) returns (r: Result<seq<Decoration>>)
    requires forall i :: 0 <= i < |matches| ==> Expandable(matches[i], lines)
    ensures r.Err? <==> exists i :: 0 <= i < |matches| && ExpandsTo(matches[i], lines, Err(MalformedTag))
    ensures r.Err? ==> r.error == MalformedTag
    ensures r.Ok? ==> |r.value| == |matches| && forall i :: 0 <= i < |matches| ==>
      && r.value[i].options == MatchOptions
      && ExpandsTo(matches[i], lines, Ok(r.value[i].range))
  {
    var decorations: seq<Decoration> := [];
    for i := 0 to |matches|
      invariant |decorations| == i
      invariant forall k :: 0 <= k < i ==>
        decorations[k].options == MatchOptions && ExpandsTo(matches[k], lines, Ok(decorations[k].range))
    {
      var expanded := ExpandTagRange(matches[i], lines);
      if expanded.Err? {
        return Err(expanded.error);
      }
      decorations := decorations + [Decoration(expanded.value, MatchOptions)];
    }
    forall i | 0 <= i < |matches| ensures !ExpandsTo(matches[i], lines, Err(MalformedTag)) {
      if ExpandsTo(matches[i], lines, Err(MalformedTag)) {
        ExpandsToUnique(matches[i], lines, Ok(decorations[i].range), Err(MalformedTag));
      }
    }
    return Ok(decorations);
  }

  /** The `for` of `markTags`: record each new id with the range of its decoration. */
  method RecordRanges(dictionary: RangeDictionary, ids: seq<DecorationId>, decorations: seq<Decoration>)
    requires |ids| == |decorations|
    requires forall i, j :: 0 <= i < j < |ids| ==> ids[i] != ids[j]
    requires forall i :: 0 <= i < |ids| ==> ids[i] !in dictionary.entries
    modifies dictionary
    ensures forall id :: id in dictionary.entries <==> id in old(dictionary.entries) || id in ids
    ensures forall id :: id in old(dictionary.entries) ==> dictionary.entries[id] == old(dictionary.entries)[id]
    ensures forall i :: 0 <= i < |ids| ==> dictionary.entries[ids[i]] == decorations[i].range
  {
    for i := 0 to |ids|
      invariant forall id :: id in dictionary.entries <==> id in old(dictionary.entries) || id in ids[..i]
      invariant forall id :: id in old(dictionary.entries) ==> dictionary.entries[id] == old(dictionary.entries)[id]
      invariant forall k :: 0 <= k < i ==> dictionary.entries[ids[k]] == decorations[k].range
    {
      assert ids[..i + 1] == ids[..i] + [ids[i]];
      dictionary.Add(ids[i], decorations[i].range);
    }
    assert ids[..|ids|] == ids;
  }

  /** `markTags`: reset the surface, expand every match (the result of searching the buffer
      for `<tag`), attach one decoration per expanded range, record each new id with its range
      in `sourceDecorations`, and reveal the first match's line. A match that does not
      expand stops it before anything is attached. */
  method MarkTags(editor: Editor, matches: seq<Range>, sourceDecorations: RangeDictionary) returns (outcome: Outcome)
    requires Valid(editor.surface)
    requires |matches| <= MaxMatches
    requires forall i :: 0 <= i < |matches| ==> Expandable(matches[i], editor.lines)
    requires forall id :: id in sourceDecorations.entries ==> id < editor.surface.nextId
    modifies editor, sourceDecorations
    ensures Valid(editor.surface)
    ensures forall id :: id in sourceDecorations.entries ==> id < editor.surface.nextId
    ensures outcome.Fail? <==> exists i :: 0 <= i < |matches| && ExpandsTo(matches[i], editor.lines, Err(MalformedTag))
    ensures outcome.Fail? ==> outcome.error == MalformedTag
    ensures outcome.Fail? || |matches| == 0 ==>
      && editor.surface == Reset(old(editor.surface))
      && sourceDecorations.entries == old(sourceDecorations.entries)
      && editor.revealed == old(editor.revealed)
    ensures outcome.Pass? && |matches| > 0 ==>
      var first := old(editor.surface.nextId);
      && editor.surface.nextId == first + |matches|
      && (forall id :: id in editor.surface.attached <==> first <= id < first + |matches|)
      && (forall id :: id in sourceDecorations.entries <==>
            id in old(sourceDecorations.entries) || first <= id < first + |matches|)
      && (forall id :: id in old(sourceDecorations.entries) ==>
            sourceDecorations.entries[id] == old(sourceDecorations.entries)[id])
      && (forall i :: 0 <= i < |matches| ==>
            && ExpandsTo(matches[i], editor.lines, Ok(sourceDecorations.entries[first + i]))
            && editor.surface.attached[first + i] == Decoration(sourceDecorations.entries[first + i], MatchOptions))
      && editor.revealed == old(editor.revealed) + [matches[0].startLineNumber]
  {
    editor.ResetDeltaDecorations();
    if |matches| == 0 {
      return Pass;
    }
    var expanded := MatchDecorations(matches, editor.lines);
    if expanded.Err? {
      return Fail(expanded.error);
    }
    AttachMatches(editor, expanded.value, sourceDecorations);
    editor.RevealLineInCenter(expanded.value[0].range.startLineNumber);
    return Pass;
  }

  /** The success path of `markTags` once every match has expanded: attach the whole batch
      in one delta and record each new id with its range. */
  method AttachMatches(editor: Editor, decorations: seq<Decoration>, sourceDecorations: RangeDictionary)
    requires Valid(editor.surface)
    requires forall id :: id in sourceDecorations.entries ==> id < editor.surface.nextId
    modifies editor, sourceDecorations
    ensures var first := old(editor.surface.nextId);
      && editor.surface.nextId == first + |decorations|
      && (forall id :: id in editor.surface.attached <==>
            id in old(editor.surface.attached) || first <= id < first + |decorations|)
      && (forall id :: id in old(editor.surface.attached) ==>
            editor.surface.attached[id] == old(editor.surface.attached)[id])
      && (forall id :: id in sourceDecorations.entries <==>
            id in old(sourceDecorations.entries) || first <= id < first + |decorations|)
      && (forall id :: id in old(sourceDecorations.entries) ==>
            sourceDecorations.entries[id] == old(sourceDecorations.entries)[id])
      && (forall i :: 0 <= i < |decorations| ==>
            && sourceDecorations.entries[first + i] == decorations[i].range
            && editor.surface.attached[first + i] == decorations[i])
    ensures editor.revealed == old(editor.revealed)
  {
    var first := editor.surface.nextId;
    ApplyDeltaFacts(editor.surface, [], decorations);
    var ids := editor.DeltaDecorations([], decorations);
    assert forall id :: id in ids <==> first <= id < first + |decorations| by {
      forall id | first <= id < first + |decorations| ensures id in ids {
        assert ids[id - first] == id;
      }
    }
    RecordRanges(sourceDecorations, ids, decorations);
  }

  /** `RemoveDecoration`: detach that one id, add nothing; the session dictionary is not
      touched. */
  method RemoveDecoration(editor: Editor, id: DecorationId)
    modifies editor
    ensures editor.surface.attached == old(editor.surface.attached) - {id}
    ensures editor.surface.nextId == old(editor.surface.nextId)
    ensures |editor.surface.attached| == |old(editor.surface.attached)| - (if id in old(editor.surface.attached) then 1 else 0)
    ensures editor.revealed == old(editor.revealed)
  {
    RemoveOne(editor.surface, id);
    RemoveCount(editor.surface, id);
    var _ := editor.DeltaDecorations([id], []);
  }

  /** `ColorRange`: attach one decoration over `range` with the look of `statusColor`,
      replacing decoration `id` when one is given, and return the new id. */
  method ColorRange(editor: Editor, range: Range, id: Option<DecorationId>, statusColor: StatusColor)
    returns (newId: DecorationId)
    requires Valid(editor.surface)
    modifies editor
    ensures Valid(editor.surface)
    ensures newId == old(editor.surface.nextId) && newId !in old(editor.surface.attached)
    ensures editor.surface.nextId == old(editor.surface.nextId) + 1
    ensures editor.surface.attached ==
      (old(editor.surface.attached) - (if id.Some? then {id.value} else {}))[newId := Decoration(range, StatusOptions(statusColor))]
    ensures |editor.surface.attached| ==
      |old(editor.surface.attached)| + (if id.Some? && id.value in old(editor.surface.attached) then 0 else 1)
    ensures editor.revealed == old(editor.revealed)
  {
    var targetId: seq<DecorationId> := [];
    if id.Some? {
      targetId := [id.value];
    }
    var newDecoration := [Decoration(range, StatusOptions(statusColor))];
    ReplaceOne(editor.surface, id, newDecoration[0]);
    RecolorCount(editor.surface, id, newDecoration[0]);
    ApplyDeltaFacts(editor.surface, targetId, newDecoration);
    var decorations := editor.DeltaDecorations(targetId, newDecoration);
    newId := decorations[0];
  }
}
