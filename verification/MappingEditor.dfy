/**
  The controller-mapping editor (gui/src/qmlbackend.cpp:2205-2265, 2292-2340, 2404-2412): a forward
  map from buttons to lists of physical inputs and an inverse map from inputs to buttons, edited in
  place. EditorSpec says what one edit and what a parsed mapping is; the class refines it.
  */
module EditorSpec {
  import opened Wrappers
  import opened MappingText

  type Inverse = map<string, string>

  datatype Editor = Editor(forward: Mapping, inverse: Inverse)

  /** Entries that are not buttons and have no physical inputs. */
  predicate Meta(key: string) {
    key in ["crc", "platform", "type", "hint"] || "sdk" <= key
  }

  predicate Button(key: string) {
    key != "" && !Meta(key)
  }

  const FACE_NAMES: seq<string> := ["a", "b", "x", "y", "dpleft", "dpright", "dpup", "dpdown", "misc1"]
  const SHOULDER_NAMES: seq<string> := ["leftshoulder", "rightshoulder", "lefttrigger", "righttrigger", "start", "back"]
  const STICK_NAMES: seq<string> := ["leftstick", "rightstick", "touchpad", "guide",
    "leftx", "lefty", "rightx", "righty"]

  /** The names updateButton knows; an unknown button code has the empty name. */
  const NAMES: seq<string> := FACE_NAMES + SHOULDER_NAMES + STICK_NAMES

  lemma NamesAreButtons(name: string)
    requires name in NAMES
    ensures Button(name) && Plain(name)
  {
    NamesAreNotMeta(name);
    NamesArePlain(name);
  }

  lemma NamesAreNotMeta(name: string)
    requires name in NAMES
    ensures Button(name)
  {
    assert |name| == 1 || |name| >= 4;
    assert |name| == 4 ==> name[0] == 'd' || name[0] == 'b';
    assert |name| == 8 ==> name[0] == 't';
    assert name[0] == 's' ==> name[1] == 't';
  }

  lemma NamesArePlain(name: string)
    requires name in NAMES
    ensures Plain(name)
  {
    if name in FACE_NAMES {
      FaceNamesArePlain(name);
    } else if name in SHOULDER_NAMES {
      ShoulderNamesArePlain(name);
    } else {
      StickNamesArePlain(name);
    }
  }

  lemma FaceNamesArePlain(name: string)
    requires name in FACE_NAMES
    ensures Plain(name)
  {
  }

  lemma ShoulderNamesArePlain(name: string)
    requires name in SHOULDER_NAMES
    ensures Plain(name)
  {
  }

  lemma StickNamesArePlain(name: string)
    requires name in STICK_NAMES
    ensures Plain(name)
  {
  }

  predicate Distinct(list: seq<string>) {
    forall i, k :: 0 <= i < k < |list| ==> list[i] != list[k]
  }

  /** An input is listed under a button exactly if the inverse map says so. */
  ghost predicate Agreeing(e: Editor) {
    forall b, p :: Button(b) ==> (b in e.forward && p in e.forward[b] <==> p in e.inverse && e.inverse[p] == b)
  }

  /** No list is empty or repeats an input. */
  ghost predicate ProperLists(forward: Mapping) {
    forall b :: Button(b) && b in forward ==> forward[b] != [] && Distinct(forward[b])
  }

  ghost predicate Consistent(e: Editor) {
    && Agreeing(e)
    && ProperLists(e.forward)
    && (forall p :: p in e.inverse ==> !Meta(e.inverse[p]))
  }

  // ---- One edit ----

  function RemoveOne(list: seq<string>, p: string): seq<string> {
    if list == [] then []
    else if list[0] == p then list[1..]
    else [list[0]] + RemoveOne(list[1..], p)
  }

  function Owner(e: Editor, p: string): string {
    if p in e.inverse then e.inverse[p] else ""
  }

  /** Takes the input away from the button that has it. */
  function Release(forward: Mapping, owner: string, p: string): Mapping {
    if owner == "" then forward
    else if |Get(forward, owner)| > 1 then forward[owner := RemoveOne(Get(forward, owner), p)]
    else forward - {owner}
  }

  function Without(list: seq<string>, index: nat): seq<string> {
    if index < |list| then list[..index] + list[index + 1..] else list
  }

  function Updated(list: seq<string>, p: string, index: nat): seq<string> {
    if index == 0 then [p] + Without(list, index) else Without(list, index) + [p]
  }

  /** The inverse map without the input that stands at the index. */
  function Displaced(e: Editor, button: string, index: nat): Inverse {
    var list := Get(e.forward, button);
    if index < |list| then e.inverse[list[index] := ""] else e.inverse
  }

  /** Gives the input to the button. */
  function Placed(e: Editor, button: string, p: string, index: nat): Editor {
    Editor(e.forward[button := Updated(Get(e.forward, button), p, index)], Displaced(e, button, index)[p := button])
  }

  function Update(e: Editor, button: string, p: string, index: nat): Editor {
    var owner := Owner(e, p);
    if button == owner then e
    else Placed(Editor(Release(e.forward, owner, p), e.inverse), button, p, index)
  }

  lemma {:induction false} RemoveOneRemoves(list: seq<string>, p: string)
    requires Distinct(list)
    ensures Distinct(RemoveOne(list, p))
    ensures forall q :: q in RemoveOne(list, p) <==> q in list && q != p
    ensures p in list ==> |RemoveOne(list, p)| == |list| - 1
  {
    if list != [] && list[0] != p {
      var rest := RemoveOne(list[1..], p);
      RemoveOneRemoves(list[1..], p);
      assert list == [list[0]] + list[1..];
      assert list[0] !in list[1..];
      forall i, k | 0 <= i < k < |rest| + 1 ensures ([list[0]] + rest)[i] != ([list[0]] + rest)[k] {
        assert rest[k - 1] in rest;
      }
    }
  }

  /** After the release nobody has the input, and every other input is where it was. */
  lemma ReleaseReleases(e: Editor, p: string)
    requires Consistent(e) && p in e.inverse && e.inverse[p] != ""
    ensures var forward := Release(e.forward, e.inverse[p], p);
      && (forall b, q :: Button(b) ==>
            (b in forward && q in forward[b] <==> b in e.forward && q in e.forward[b] && q != p))
      && ProperLists(forward)
      && (forall b :: b != e.inverse[p] ==>
            (b in forward <==> b in e.forward) && (b in forward ==> forward[b] == e.forward[b]))
  {
    var owner := e.inverse[p];
    var list := e.forward[owner];
    assert p in list;
    RemoveOneRemoves(list, p);
    if |list| <= 1 {
      assert list == [p];
    }
  }

  lemma WithoutList(list: seq<string>, index: nat)
    requires Distinct(list)
    ensures Distinct(Without(list, index))
    ensures forall q :: q in Without(list, index) <==> q in list && !(index < |list| && q == list[index])
  {
    if index < |list| {
      var a, x, b := list[..index], list[index], list[index + 1..];
      assert list == a + [x] + b;
      assert x !in a && x !in b;
    }
  }

  lemma UpdatedList(list: seq<string>, p: string, index: nat)
    requires Distinct(list) && p !in list
    ensures Distinct(Updated(list, p, index)) && Updated(list, p, index) != []
    ensures forall q :: q in Updated(list, p, index) <==> q == p || (q in list && !(index < |list| && q == list[index]))
  {
    WithoutList(list, index);
    assert p !in Without(list, index);
  }

  lemma PlaceKeepsConsistent(e: Editor, button: string, p: string, index: nat)
    requires Consistent(e) && Button(button)
    requires p !in e.inverse || e.inverse[p] == ""
    ensures Consistent(Placed(e, button, p, index))
  {
    hide Agreeing, Updated;
    PlaceKeepsAgreeing(e, button, p, index);
    UpdatedList(Get(e.forward, button), p, index);
  }

  lemma NotListed(e: Editor, button: string, p: string)
    requires Consistent(e) && Button(button)
    requires p !in e.inverse || e.inverse[p] == ""
    ensures p !in Get(e.forward, button)
  {
  }

  lemma PlaceKeepsAgreeing(e: Editor, button: string, p: string, index: nat)
    requires Consistent(e) && Button(button)
    requires p !in e.inverse || e.inverse[p] == ""
    ensures Agreeing(Placed(e, button, p, index)) && p !in Get(e.forward, button)
  {
    NotListed(e, button, p);
    hide Placed, Consistent;
    var after := Placed(e, button, p, index);
    forall b, q | Button(b)
      ensures b in after.forward && q in after.forward[b] <==> q in after.inverse && after.inverse[q] == b
    {
      if b == button {
        PlacedOnButton(e, button, p, index, q);
      } else {
        PlacedElsewhere(e, button, p, index, b, q);
      }
    }
  }

  lemma PlacedOnButton(e: Editor, button: string, p: string, index: nat, q: string)
    requires Consistent(e) && Button(button)
    requires p !in e.inverse || e.inverse[p] == ""
    ensures var after := Placed(e, button, p, index);
      button in after.forward && q in after.forward[button] <==> q in after.inverse && after.inverse[q] == button
  {
    var list := Get(e.forward, button);
    assert p !in list;
    UpdatedList(list, p, index);
    if index < |list| {
      assert list[index] in list;
    }
  }

  lemma PlacedElsewhere(e: Editor, button: string, p: string, index: nat, b: string, q: string)
    requires Consistent(e) && Button(button) && Button(b) && b != button
    requires p !in e.inverse || e.inverse[p] == ""
    ensures var after := Placed(e, button, p, index);
      b in after.forward && q in after.forward[b] <==> q in after.inverse && after.inverse[q] == b
  {
    var list := Get(e.forward, button);
    if index < |list| {
      assert list[index] in list;
    }
  }

  /** Every edit of a known button keeps the two maps consistent. */
  lemma UpdateKeepsConsistent(e: Editor, button: string, p: string, index: nat)
    requires Consistent(e) && Button(button)
    ensures Consistent(Update(e, button, p, index))
  {
    var owner := Owner(e, p);
    if button != owner {
      if owner != "" {
        ReleaseReleases(e, p);
        var released := Editor(Release(e.forward, owner, p), e.inverse[p := ""]);
        assert Consistent(released);
        PlaceKeepsConsistent(released, button, p, index);
        SameEdit(e.inverse, Get(released.forward, button), button, p, index);
        assert Update(e, button, p, index) == Placed(released, button, p, index);
      } else {
        PlaceKeepsConsistent(e, button, p, index);
      }
    }
  }

  lemma SameEdit(inverse: Inverse, list: seq<string>, button: string, p: string, index: nat)
    ensures var a := inverse[p := ""];
      (if index < |list| then a[list[index] := ""] else a)[p := button]
      == (if index < |list| then inverse[list[index] := ""] else inverse)[p := button]
  {
  }

  /** The input goes to the button; the input that stood at the index belongs to nobody; every other
      input keeps its button. */
  lemma UpdateMovesTheInput(e: Editor, button: string, p: string, index: nat)
    requires Consistent(e) && Button(button) && Owner(e, p) != button
    ensures var after := Update(e, button, p, index);
      var list := Get(e.forward, button);
      && Owner(after, p) == button
      && (index < |list| ==> Owner(after, list[index]) == "")
      && (forall q :: q != p && !(index < |list| && q == list[index]) ==> Owner(after, q) == Owner(e, q))
  {
    if Owner(e, p) != "" {
      ReleaseReleases(e, p);
    }
    var list := Get(e.forward, button);
    assert list == Get(Release(e.forward, Owner(e, p), p), button);
    if index < |list| {
      assert list[index] in list;
    }
  }

  lemma UpdateGivesTheInput(e: Editor, button: string, p: string, index: nat)
    requires Consistent(e) && Button(button)
    ensures Consistent(Update(e, button, p, index)) && Owner(Update(e, button, p, index), p) == button
  {
    UpdateKeepsConsistent(e, button, p, index);
    if Owner(e, p) != button {
      UpdateMovesTheInput(e, button, p, index);
    }
  }

  /** The input stands in front for index 0 and at the end otherwise, the input that stood at the index
      is gone, and the others keep their order. */
  ghost predicate Receives(list: seq<string>, p: string, index: nat, after: seq<string>) {
    && (index == 0 && list == [] ==> after == [p])
    && (index == 0 && list != [] ==> after == [p] + list[1..])
    && (0 < index < |list| ==> after == list[..index] + list[index + 1..] + [p])
    && (index > 0 && index >= |list| ==> after == list + [p])
  }

  lemma NewListInWords(e: Editor, button: string, p: string, index: nat)
    requires Owner(e, p) != button
    ensures var after := Update(e, button, p, index).forward;
      var list := if button in e.forward then e.forward[button] else [];
      button in after && Receives(list, p, index, after[button])
  {
    assert Get(e.forward, button) == Get(Release(e.forward, Owner(e, p), p), button);
  }

  lemma {:induction false} RemoveOneAt(list: seq<string>, p: string, k: nat)
    requires Distinct(list) && k < |list| && list[k] == p
    ensures RemoveOne(list, p) == list[..k] + list[k + 1..]
  {
    if k > 0 {
      assert list[0] != list[k];
      RemoveOneAt(list[1..], p, k - 1);
      assert list[..k] == [list[0]] + list[1..][..k - 1];
    } else {
      assert list[..0] + list[1..] == list[1..];
    }
  }

  /** The old owner's list loses the input where it stood and keeps the order of the others, or the
      entry goes when there are none; no list but the old and the new owner's changes. */
  lemma UpdateChangesOnlyTwoLists(e: Editor, button: string, p: string, index: nat)
    requires Consistent(e) && Button(button) && Owner(e, p) != button
    ensures var after := Update(e, button, p, index);
      var owner := Owner(e, p);
      && button in after.forward && after.forward[button] == Updated(Get(e.forward, button), p, index)
      && (owner != "" ==> (owner in after.forward <==> e.forward[owner] != [p]) && p !in Get(after.forward, owner))
      && (owner != "" && owner in after.forward ==>
            forall k :: 0 <= k < |e.forward[owner]| && e.forward[owner][k] == p ==>
              after.forward[owner] == e.forward[owner][..k] + e.forward[owner][k + 1..])
      && (forall b :: b != button && b != owner ==>
            (b in after.forward <==> b in e.forward) && (b in after.forward ==> after.forward[b] == e.forward[b]))
  {
    var owner := Owner(e, p);
    if owner != "" {
      var list := e.forward[owner];
      assert p in list;
      ReleaseReleases(e, p);
      assert |list| == 1 ==> list == [p];
      forall k | 0 <= k < |list| && list[k] == p ensures RemoveOne(list, p) == list[..k] + list[k + 1..] {
        RemoveOneAt(list, p, k);
      }
    }
    assert Get(e.forward, button) == Get(Release(e.forward, owner, p), button);
  }

  // ---- A parsed mapping ----

  function AddEach(inverse: Inverse, inputs: seq<string>, key: string): Inverse {
    if inputs == [] then inverse else AddEach(inverse, inputs[..|inputs| - 1], key)[inputs[|inputs| - 1] := key]
  }

  function AddEntry(e: Editor, piece: string): Editor {
    var parts := Split(piece, ':');
    if |parts| < 2 then e
    else
      var inputs := Get(e.forward, parts[0]) + parts[1..];
      Editor(e.forward[parts[0] := inputs], if Meta(parts[0]) then e.inverse else AddEach(e.inverse, inputs, parts[0]))
  }

  function AddEntries(e: Editor, pieces: seq<string>): Editor {
    if pieces == [] then e else AddEntry(AddEntries(e, pieces[..|pieces| - 1]), pieces[|pieces| - 1])
  }

  const BLANK := Editor(map[], map[])

  function Read(text: string): Option<Editor> {
    var pieces := Split(text, ',');
    if |pieces| < 2 then None else Some(AddEntries(BLANK, pieces[2..]))
  }

  /** No input is listed twice among the entries that have inputs. */
  ghost predicate Unrepeated(forward: Mapping) {
    && (forall b :: !Meta(b) && b in forward ==> Distinct(forward[b]))
    && (forall b, c, p :: !Meta(b) && !Meta(c) && b in forward && c in forward && p in forward[b] && p in forward[c] ==>
          b == c)
  }

  lemma {:induction false} AddEachAdds(inverse: Inverse, inputs: seq<string>, key: string)
    ensures forall p :: p in AddEach(inverse, inputs, key) <==> p in inputs || p in inverse
    ensures forall p :: p in AddEach(inverse, inputs, key) ==>
      AddEach(inverse, inputs, key)[p] == if p in inputs then key else inverse[p]
  {
    if inputs != [] {
      AddEachAdds(inverse, inputs[..|inputs| - 1], key);
      assert inputs == inputs[..|inputs| - 1] + [inputs[|inputs| - 1]];
    }
  }

  lemma MetaInWords(key: string)
    ensures Meta(key) <==>
      (key == "crc" || key == "platform" || key == "type" || key == "hint"
       || (|key| >= 3 && key[0] == 's' && key[1] == 'd' && key[2] == 'k'))
  {
    var metas := ["crc", "platform", "type", "hint"];
    assert key in metas <==> key == metas[0] || key == metas[1] || key == metas[2] || key == metas[3];
    assert |key| >= 3 && key[0] == 's' && key[1] == 'd' && key[2] == 'k' ==> key[..3] == "sdk";
  }

  /** A piece gives all inputs that its key has afterwards to the key, unless the key is one of those
      that have no physical inputs; nothing else changes owner. */
  lemma PieceAssignsInputs(e: Editor, key: string, inputs: seq<string>)
    requires ':' !in key && inputs != [] && forall k :: 0 <= k < |inputs| ==> ':' !in inputs[k]
    ensures var after := AddEntry(e, key + Tail(':', inputs));
      && key in after.forward
      && (Meta(key) ==> after.inverse == e.inverse)
      && (!Meta(key) ==> forall p :: Owner(after, p) == if p in after.forward[key] then key else Owner(e, p))
  {
    SplitTail(':', key, inputs);
    AddEachAdds(e.inverse, Get(e.forward, key) + inputs, key);
    hide Split, Tail, Meta, AddEach;
    assert ([key] + inputs)[1..] == inputs;
    assert AddEntry(e, key + Tail(':', inputs)).forward[key] == Get(e.forward, key) + inputs;
  }

  /** What holds while parsing, repeated inputs or not. */
  ghost predicate Parsing(e: Editor) {
    && (forall p :: p in e.inverse ==>
          !Meta(e.inverse[p]) && e.inverse[p] in e.forward && p in e.forward[e.inverse[p]])
    && (forall k, p :: k in e.forward && !Meta(k) && p in e.forward[k] ==> p in e.inverse)
    && (forall k :: k in e.forward ==> e.forward[k] != [])
  }

  lemma {:induction false} EntriesKeepParsing(pieces: seq<string>)
    ensures Parsing(AddEntries(BLANK, pieces))
    ensures AddEntries(BLANK, pieces).forward == AddPieces(map[], pieces)
  {
    if pieces != [] {
      var front, piece := pieces[..|pieces| - 1], pieces[|pieces| - 1];
      EntriesKeepParsing(front);
      EntryKeepsParsing(AddEntries(BLANK, front), piece);
    }
  }

  lemma EntryKeepsParsing(e: Editor, piece: string)
    requires Parsing(e)
    ensures Parsing(AddEntry(e, piece))
  {
    var parts := Split(piece, ':');
    if |parts| >= 2 {
      var inputs := Get(e.forward, parts[0]) + parts[1..];
      AddEachAdds(e.inverse, inputs, parts[0]);
      assert forall p :: p in Get(e.forward, parts[0]) ==> p in inputs;
    }
  }

  /** A parsed mapping that lists no input twice is consistent, and only such a mapping is. */
  lemma ParsedIsConsistentUnlessRepeated(text: string)
    requires Read(text).Some?
    ensures Unrepeated(Read(text).value.forward) ==> Consistent(Read(text).value)
    ensures "" !in Read(text).value.forward ==>
      (Consistent(Read(text).value) <==> Unrepeated(Read(text).value.forward))
  {
    var e := Read(text).value;
    EntriesKeepParsing(Split(text, ',')[2..]);
    if Unrepeated(e.forward) {
      UnrepeatedIsConsistent(e);
    }
    if "" !in e.forward && Consistent(e) {
      ConsistentIsUnrepeated(e);
    }
  }

  /** An input listed under two buttons makes the maps disagree: the inverse map has only the last. */
  lemma RepeatedInputIsInconsistent()
    ensures Read("g,t,a:b0,b:b0").Some? && !Consistent(Read("g,t,a:b0,b:b0").value)
  {
    hide Split, Consistent, AddEntry;
    assert "a" + ":" + "b0" == "a:b0" && "b" + ":" + "b0" == "b:b0";
    RepeatedPieces();
    SplitItem("a", "b0");
    SplitItem("b", "b0");
    var pieces := Split("g,t,a:b0,b:b0", ',')[2..];
    assert pieces == ["a:b0", "b:b0"] && pieces[..1] == ["a:b0"] && pieces[..1][..0] == [];
    var one := AddEntry(BLANK, "a:b0");
    assert AddEntries(BLANK, pieces[..1]) == one;
    TwoOwners(one, AddEntry(one, "b:b0"));
  }

  lemma RepeatedPieces()
    ensures Split("g,t,a:b0,b:b0", ',') == ["g", "t", "a:b0", "b:b0"]
  {
    hide Split;
    SplitPlain("b:b0", ',');
    SplitFirst("a:b0", ',', "b:b0");
    SplitFirst("t", ',', "a:b0" + [','] + "b:b0");
    SplitFirst("g", ',', "t" + [','] + ("a:b0" + [','] + "b:b0"));
    assert "g,t,a:b0,b:b0" == "g" + [','] + ("t" + [','] + ("a:b0" + [','] + "b:b0"));
  }

  lemma TwoOwners(one: Editor, two: Editor)
    requires Split("a:b0", ':') == ["a", "b0"] && Split("b:b0", ':') == ["b", "b0"]
    requires one == AddEntry(BLANK, "a:b0") && two == AddEntry(one, "b:b0")
    ensures !Consistent(two)
  {
    assert ["a", "b0"][1..] == ["b0"] && ["b", "b0"][1..] == ["b0"];
    assert Button("a") && Button("b") && "a" != "b" by {
      NamesAreButtons("a");
      NamesAreButtons("b");
    }
    AddEachAdds(BLANK.inverse, ["b0"], "a");
    AddEachAdds(one.inverse, ["b0"], "b");
    assert [] + ["b0"] == ["b0"];
    assert "b0" in two.forward["a"] && two.inverse["b0"] == "b";
  }

  lemma UnrepeatedIsConsistent(e: Editor)
    requires Parsing(e) && Unrepeated(e.forward)
    ensures Consistent(e)
  {
    forall b, p | Button(b)
      ensures b in e.forward && p in e.forward[b] <==> p in e.inverse && e.inverse[p] == b
    {
      if b in e.forward && p in e.forward[b] {
        assert p in e.forward[e.inverse[p]];
      }
    }
  }

  lemma ConsistentIsUnrepeated(e: Editor)
    requires Consistent(e) && "" !in e.forward
    ensures Unrepeated(e.forward)
  {
    forall b, c, p | !Meta(b) && !Meta(c) && b in e.forward && c in e.forward && p in e.forward[b] && p in e.forward[c]
      ensures b == c
    {
      assert Button(b) && Button(c);
      assert e.inverse[p] == b && e.inverse[p] == c;
    }
  }

  /** The forward map the editor reads is the mapping of MappingText. */
  lemma ReadIsParse(text: string)
    ensures Read(text).Some? <==> Parse(text).Some?
    ensures Read(text).Some? ==> Read(text).value.forward == Parse(text).value
  {
    var pieces := Split(text, ',');
    if |pieces| >= 2 {
      EntriesKeepParsing(pieces[2..]);
    }
  }

  // ---- Whole sessions ----

  datatype Edit = Edit(button: string, input: string, index: nat)

  function Edits(e: Editor, edits: seq<Edit>): Editor {
    if edits == [] then e
    else
      var last := edits[|edits| - 1];
      Update(Edits(e, edits[..|edits| - 1]), last.button, last.input, last.index)
  }

  lemma UpdateKeepsPrintable(e: Editor, button: string, p: string, index: nat)
    requires Consistent(e) && Printable(e.forward) && Button(button) && Plain(button) && Plain(p)
    ensures Printable(Update(e, button, p, index).forward)
  {
    var owner := Owner(e, p);
    if button != owner {
      var forward := Release(e.forward, owner, p);
      ReleaseKeepsPrintable(e, owner, p);
      UpdatedPlain(Get(forward, button), p, index);
    }
  }

  lemma ReleaseKeepsPrintable(e: Editor, owner: string, p: string)
    requires Consistent(e) && Printable(e.forward) && owner == Owner(e, p)
    ensures Printable(Release(e.forward, owner, p))
  {
    if owner != "" {
      ReleaseReleases(e, p);
      RemoveOnePlain(Get(e.forward, owner), p);
    }
  }

  lemma UpdatedPlain(list: seq<string>, p: string, index: nat)
    requires Plain(p) && forall k :: 0 <= k < |list| ==> Plain(list[k])
    ensures Updated(list, p, index) != []
    ensures forall k :: 0 <= k < |Updated(list, p, index)| ==> Plain(Updated(list, p, index)[k])
  {
  }

  lemma {:induction false} RemoveOnePlain(list: seq<string>, p: string)
    requires forall k :: 0 <= k < |list| ==> Plain(list[k])
    ensures forall k :: 0 <= k < |RemoveOne(list, p)| ==> Plain(RemoveOne(list, p)[k])
  {
    if list != [] && list[0] != p {
      RemoveOnePlain(list[1..], p);
    }
  }

  /** From any parsed mapping without repeated inputs, every sequence of edits of known buttons keeps
      the maps consistent, and what is then printed parses back to the edited map. */
  lemma {:induction false} SessionStaysConsistent(text: string, edits: seq<Edit>,
                                                  guid: string, kind: string, keys: seq<string>)
    requires Read(text).Some? && Unrepeated(Read(text).value.forward)
    requires forall i :: 0 <= i < |edits| ==> edits[i].button in NAMES && Plain(edits[i].input)
    ensures var e := Edits(Read(text).value, edits);
      && Consistent(e) && Printable(e.forward)
      && (',' !in guid && ',' !in kind && Walks(keys, e.forward) ==>
            Parse(guid + "," + Print(kind, e.forward, keys)) == Some(e.forward))
  {
    var e := Edits(Read(text).value, edits);
    if edits == [] {
      ParsedIsConsistentUnlessRepeated(text);
      ReadIsParse(text);
      ParseIsPrintable(text);
    } else {
      var before, last := edits[..|edits| - 1], edits[|edits| - 1];
      SessionStaysConsistent(text, before, guid, kind, keys);
      NamesAreButtons(last.button);
      UpdateKeepsConsistent(Edits(Read(text).value, before), last.button, last.input, last.index);
      UpdateKeepsPrintable(Edits(Read(text).value, before), last.button, last.input, last.index);
    }
    if ',' !in guid && ',' !in kind && Walks(keys, e.forward) {
      RoundTrip(guid, kind, e.forward, keys);
    }
  }
}

module MappingEditor {
  import opened Wrappers
  import opened MappingText
  import opened EditorSpec

  /** A wildcard type is replaced by the one the controller reports. */
  function Kind(field: string, reported: string): string {
    if field != "*" then field else if reported == "" then "Unidentified Controller" else reported
  }

  class Session {
    var forward: Mapping
    var inverse: Inverse
    var applied: Mapping
    var altered: bool
    var inProgress: bool
    var guid: string
    var kind: string

    ghost function State(): Editor
      reads this
    {
      Editor(forward, inverse)
    }

    /** The flag says whether there is anything to apply. */
    ghost predicate Valid()
      reads this
    {
      altered <==> forward != applied
    }

    ghost predicate Blank()
      reads this
    {
      State() == BLANK && applied == map[]
    }

    constructor ()
      ensures Valid() && Blank() && !inProgress
    {
      forward, inverse, applied, altered, inProgress, guid, kind := map[], map[], map[], false, false, "", "";
    }

    /** Reads the text as "guid,type,piece,piece,..."; `reported` is the type the controller gives. */
    method ParseMapping(text: string, reported: string) returns (parsed: bool)
      requires Valid() && (inProgress || Blank())
      modifies this
      ensures Valid()
      ensures parsed <==> !old(inProgress) && Read(text).Some?
      ensures !parsed ==> unchanged(this)
      ensures parsed ==> inProgress && State() == Read(text).value && applied == forward && !altered
      ensures parsed ==> guid == Split(text, ',')[0]
      ensures parsed && Split(text, ',')[1] != "*" ==> kind == Split(text, ',')[1]
      ensures parsed && Split(text, ',')[1] == "*" && reported != "" ==> kind == reported
      ensures parsed && Split(text, ',')[1] == "*" && reported == "" ==> kind == "Unidentified Controller"
      ensures parsed ==> Some(forward) == Parse(text) && Printable(forward)
    {
      if inProgress {
        return false;
      }
      var pieces := Split(text, ',');
      if |pieces| < 2 {
        return false;
      }
      guid, kind := pieces[0], pieces[1];
      if kind == "*" {
        kind := reported;
        if kind == "" {
          kind := "Unidentified Controller";
        }
      }
      pieces := pieces[2..];
      var i := 0;
      while i < |pieces|
        invariant 0 <= i <= |pieces|
        invariant State() == AddEntries(BLANK, pieces[..i])
        invariant !altered && !inProgress && applied == map[] && guid == Split(text, ',')[0]
        invariant kind == Kind(Split(text, ',')[1], reported)
      {
        assert pieces[..i + 1][..i] == pieces[..i];
        ReadPiece(pieces[i]);
        i := i + 1;
      }
      assert pieces[..i] == pieces;
      applied := forward;
      inProgress := true;
      parsed := true;
      ReadIsParse(text);
      ParseIsPrintable(text);
    }

    method ReadPiece(piece: string)
      modifies this`forward, this`inverse
      ensures State() == AddEntry(old(State()), piece)
    {
      var inputs := Split(piece, ':');
      if |inputs| < 2 {
        return;
      }
      var key := inputs[0];
      inputs := inputs[1..];
      if key in forward {
        inputs := forward[key] + inputs;
      } else {
        assert [] + inputs == inputs;
      }
      forward := forward[key := inputs];
      if !Meta(key) {
        Assign(inputs, key);
      }
    }

    method Assign(inputs: seq<string>, key: string)
      modifies this`inverse
      ensures inverse == AddEach(old(inverse), inputs, key)
    {
      var j := 0;
      while j < |inputs|
        invariant 0 <= j <= |inputs|
        invariant inverse == AddEach(old(inverse), inputs[..j], key)
      {
        inverse := inverse[inputs[j] := key];
        assert inputs[..j + 1][..j] == inputs[..j];
        j := j + 1;
      }
      assert inputs[..j] == inputs;
    }

    /** `button` is the name of the button code, empty for a code without a name. */
    method UpdateButton(button: string, input: string, index: nat)
      requires Valid()
      modifies this`forward, this`inverse, this`altered
      ensures Valid()
      ensures State() == Update(old(State()), button, input, index)
      ensures old(Consistent(State())) && Button(button) ==> Consistent(State()) && Owner(State(), input) == button
      ensures old(Owner(State(), input)) == button ==> State() == old(State())
      ensures old(Owner(State(), input)) != button ==>
        var list := if button in old(forward) then old(forward)[button] else [];
        button in forward && Receives(list, input, index, forward[button])
    {
      hide Consistent, Button, Receives, Release, Updated;
      ghost var before := State();
      if Button(button) && Consistent(before) {
        UpdateGivesTheInput(before, button, input, index);
      }
      if Owner(before, input) != button {
        NewListInWords(before, button, input, index);
      }
      var owner := if input in inverse then inverse[input] else "";
      if button == owner {
        return;
      }
      TakeAway(owner, input);
      PutIn(button, input, index);
      if forward == applied {
        altered := false;
      } else {
        altered := true;
      }
    }

    /** Takes the input off its owner's list, or the owner's entry away when it has no other. */
    method TakeAway(owner: string, input: string)
      modifies this`forward
      ensures forward == Release(old(forward), owner, input)
    {
      if owner != "" {
        var inputs := Get(forward, owner);
        if |inputs| > 1 {
          inputs := RemoveOne(inputs, input);
          forward := forward[owner := inputs];
        } else {
          forward := forward - {owner};
        }
      }
    }

    /** Gives the input to the button, in place of the one at the index. */
    method PutIn(button: string, input: string, index: nat)
      modifies this`forward, this`inverse
      ensures State() == Placed(old(State()), button, input, index)
    {
      var list := Get(forward, button);
      if |list| > index {
        inverse := inverse[list[index] := ""];
        list := list[..index] + list[index + 1..];
      }
      if index == 0 {
        list := [input] + list;
      } else {
        list := list + [input];
      }
      forward := forward[button := list];
      inverse := inverse[input := button];
    }

    /** What Apply hands on; `keys` lists the keys in the order the map is walked. */
    method PrintMapping(keys: seq<string>) returns (text: string)
      requires Walks(keys, forward)
      ensures text == Print(kind, forward, keys)
      ensures ',' !in guid && ',' !in kind ==> (Parse(guid + "," + text) == Some(forward) <==> Printable(forward))
      ensures ',' !in guid && ',' !in kind ==>
        var fields := Split(guid + "," + text, ',');
        |fields| >= 2 && fields[0] == guid && fields[1] == kind
    {
      var entries := PrintEntries(keys);
      text := kind + entries;
      if ',' !in guid && ',' !in kind {
        RoundTrip(guid, kind, forward, keys);
        PrintedFields(guid, kind, forward, keys);
      }
    }

    method PrintEntries(keys: seq<string>) returns (text: string)
      requires Walks(keys, forward)
      ensures text == PrintKeys(forward, keys)
    {
      text := "";
      var i := 0;
      while i < |keys|
        invariant 0 <= i <= |keys|
        invariant text == PrintKeys(forward, keys[..i])
      {
        assert keys[i] in keys;
        var list := PrintInputs(keys[i], forward[keys[i]]);
        text := text + list;
        assert keys[..i + 1][..i] == keys[..i];
        i := i + 1;
      }
      assert keys[..i] == keys;
    }

    static method PrintInputs(key: string, inputs: seq<string>) returns (text: string)
      ensures text == PrintList(key, inputs)
    {
      text := "";
      var j := 0;
      while j < |inputs|
        invariant 0 <= j <= |inputs|
        invariant text == PrintList(key, inputs[..j])
      {
        assert inputs[..j + 1][..j] == inputs[..j];
        text := text + ("," + (key + ":" + inputs[j]));
        j := j + 1;
      }
      assert inputs[..j] == inputs;
    }

    method Quit()
      modifies this
      ensures Valid() && Blank() && !inProgress && guid == "" && kind == ""
    {
      altered := false;
      guid, kind := "", "";
      forward, applied, inverse := map[], map[], map[];
      inProgress := false;
    }
  }
}
