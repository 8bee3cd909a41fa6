/**
  Controller mapping strings (gui/src/qmlbackend.cpp:2038-2044, 2164-2165, 2292-2334, 2404-2412):
  "guid,type,button:input,button:input,...". Printing, parsing, and the GUID prefix.
  */
module MappingText {
  import opened Wrappers

  type Mapping = map<string, seq<string>>

  // ---- Splitting ----

  /** QString::split with empty parts kept. */
  function Split(s: string, c: char): (parts: seq<string>)
    ensures |parts| >= 1
  {
    if s == "" then [""]
    else
      var rest := Split(s[1..], c);
      if s[0] == c then [""] + rest else [[s[0]] + rest[0]] + rest[1..]
  }

  lemma {:induction false} SplitPlain(s: string, c: char)
    requires c !in s
    ensures Split(s, c) == [s]
  {
    if s != "" {
      SplitPlain(s[1..], c);
      assert [s[0]] + s[1..] == s;
    }
  }

  lemma {:induction false} SplitFirst(a: string, c: char, b: string)
    requires c !in a
    ensures Split(a + [c] + b, c) == [a] + Split(b, c)
  {
    if a == "" {
      assert a + [c] + b == [c] + b;
      assert ([c] + b)[1..] == b;
    } else {
      assert (a + [c] + b)[1..] == a[1..] + [c] + b;
      SplitFirst(a[1..], c, b);
      assert a == [a[0]] + a[1..];
    }
  }

  lemma {:induction false} PartsArePlain(s: string, c: char, d: char)
    ensures forall k :: 0 <= k < |Split(s, c)| ==> c !in Split(s, c)[k]
    ensures d !in s ==> forall k :: 0 <= k < |Split(s, c)| ==> d !in Split(s, c)[k]
  {
    if s != "" {
      PartsArePlain(s[1..], c, d);
    }
  }

  // ---- Parsing ----

  function Get(m: Mapping, key: string): seq<string> {
    if key in m then m[key] else []
  }

  /** One piece "key:input:input...": pieces without a colon are ignored, a repeated key adds inputs. */
  function AddPiece(m: Mapping, piece: string): Mapping {
    var parts := Split(piece, ':');
    if |parts| < 2 then m else m[parts[0] := Get(m, parts[0]) + parts[1..]]
  }

  function AddPieces(m: Mapping, pieces: seq<string>): Mapping {
    if pieces == [] then m
    else AddPiece(AddPieces(m, pieces[..|pieces| - 1]), pieces[|pieces| - 1])
  }

  function Parse(text: string): Option<Mapping> {
    var pieces := Split(text, ',');
    if |pieces| < 2 then None else Some(AddPieces(map[], pieces[2..]))
  }

  // ---- Printing ----

  function Item(key: string, input: string): string {
    "," + (key + ":" + input)
  }

  function PrintList(key: string, inputs: seq<string>): string {
    if inputs == [] then "" else PrintList(key, inputs[..|inputs| - 1]) + Item(key, inputs[|inputs| - 1])
  }

  function PrintKeys(m: Mapping, keys: seq<string>): string {
    if keys == [] then ""
    else
      var last := keys[|keys| - 1];
      PrintKeys(m, keys[..|keys| - 1]) + PrintList(last, Get(m, last))
  }

  /** `keys` is the order in which the map is walked. */
  function Print(kind: string, m: Mapping, keys: seq<string>): string {
    kind + PrintKeys(m, keys)
  }

  ghost predicate Walks(keys: seq<string>, m: Mapping) {
    && (forall i, k :: 0 <= i < k < |keys| ==> keys[i] != keys[k])
    && (forall key :: key in keys <==> key in m)
  }

  predicate Plain(s: string) {
    ',' !in s && ':' !in s
  }

  /** No list is empty and no name contains a separator. */
  predicate Printable(m: Mapping) {
    forall key :: key in m ==> Plain(key) && m[key] != [] && forall k :: 0 <= k < |m[key]| ==> Plain(m[key][k])
  }

  // ---- The round trip ----

  /** The pieces, each behind a separator. */
  function Tail(c: char, pieces: seq<string>): string {
    if pieces == [] then "" else Tail(c, pieces[..|pieces| - 1]) + [c] + pieces[|pieces| - 1]
  }

  /** They are read back one by one. */
  lemma {:induction false} SplitTail(c: char, head: string, pieces: seq<string>)
    requires c !in head && forall k :: 0 <= k < |pieces| ==> c !in pieces[k]
    ensures Split(head + Tail(c, pieces), c) == [head] + pieces
    decreases pieces
  {
    if pieces == [] {
      assert head + "" == head;
      SplitPlain(head, c);
    } else {
      TailFirst(c, pieces);
      assert head + Tail(c, pieces) == head + [c] + (pieces[0] + Tail(c, pieces[1..]));
      SplitFirst(head, c, pieces[0] + Tail(c, pieces[1..]));
      SplitTail(c, pieces[0], pieces[1..]);
      assert pieces == [pieces[0]] + pieces[1..];
    }
  }

  lemma {:induction false} TailFirst(c: char, pieces: seq<string>)
    requires pieces != []
    ensures Tail(c, pieces) == [c] + (pieces[0] + Tail(c, pieces[1..]))
  {
    var front, last := pieces[..|pieces| - 1], pieces[|pieces| - 1];
    if front == [] {
      assert Tail(c, front) == "" && pieces[1..] == [];
      assert Tail(c, pieces) == "" + [c] + last;
      assert pieces[0] + "" == last;
    } else {
      TailFirst(c, front);
      var rest := Tail(c, front[1..]);
      assert pieces[1..][..|pieces| - 2] == front[1..];
      assert Tail(c, pieces[1..]) == rest + [c] + last;
      assert Tail(c, pieces) == [c] + (pieces[0] + rest) + [c] + last;
      assert [c] + (pieces[0] + rest) + [c] + last == [c] + (pieces[0] + (rest + [c] + last));
    }
  }

  function Items(key: string, inputs: seq<string>): seq<string> {
    seq(|inputs|, i requires 0 <= i < |inputs| => key + ":" + inputs[i])
  }

  function AllItems(m: Mapping, keys: seq<string>): seq<string> {
    if keys == [] then []
    else
      var last := keys[|keys| - 1];
      AllItems(m, keys[..|keys| - 1]) + Items(last, Get(m, last))
  }

  lemma {:induction false} TailConcat(c: char, a: seq<string>, b: seq<string>)
    ensures Tail(c, a + b) == Tail(c, a) + Tail(c, b)
  {
    if b == [] {
      assert a + b == a;
    } else {
      var front, last := b[..|b| - 1], b[|b| - 1];
      TailConcat(c, a, front);
      assert (a + b)[..|a + b| - 1] == a + front;
      assert Tail(c, a + b) == Tail(c, a) + Tail(c, front) + [c] + last;
    }
  }

  lemma {:induction false} PrintListIsTail(key: string, inputs: seq<string>)
    ensures PrintList(key, inputs) == Tail(',', Items(key, inputs))
  {
    if inputs != [] {
      var front := inputs[..|inputs| - 1];
      PrintListIsTail(key, front);
      assert Items(key, inputs)[..|inputs| - 1] == Items(key, front);
      assert Item(key, inputs[|inputs| - 1]) == "," + Items(key, inputs)[|inputs| - 1];
    }
  }

  lemma {:induction false} PrintKeysIsTail(m: Mapping, keys: seq<string>)
    ensures PrintKeys(m, keys) == Tail(',', AllItems(m, keys))
  {
    if keys != [] {
      var front, last := keys[..|keys| - 1], keys[|keys| - 1];
      PrintKeysIsTail(m, front);
      PrintListIsTail(last, Get(m, last));
      TailConcat(',', AllItems(m, front), Items(last, Get(m, last)));
    }
  }

  lemma {:induction false} AddConcat(m: Mapping, a: seq<string>, b: seq<string>)
    ensures AddPieces(m, a + b) == AddPieces(AddPieces(m, a), b)
  {
    if b == [] {
      assert a + b == a;
    } else {
      var front := b[..|b| - 1];
      AddConcat(m, a, front);
      assert (a + b)[..|a + b| - 1] == a + front;
    }
  }

  lemma SplitItem(key: string, input: string)
    requires Plain(key) && Plain(input)
    ensures Split(key + ":" + input, ':') == [key, input]
  {
    assert key + ":" + input == key + [':'] + input;
    SplitFirst(key, ':', input);
    SplitPlain(input, ':');
  }

  lemma {:induction false} AddItems(m: Mapping, key: string, inputs: seq<string>)
    requires Plain(key) && forall k :: 0 <= k < |inputs| ==> Plain(inputs[k])
    ensures AddPieces(m, Items(key, inputs)) == if inputs == [] then m else m[key := Get(m, key) + inputs]
  {
    if inputs != [] {
      var front, last := inputs[..|inputs| - 1], inputs[|inputs| - 1];
      AddItems(m, key, front);
      ItemsSnoc(m, key, inputs);
      SplitItem(key, last);
      AddOne(AddPieces(m, Items(key, front)), key, last, key + ":" + last);
      GetSnoc(m, key, inputs);
    }
  }

  lemma ItemsSnoc(m: Mapping, key: string, inputs: seq<string>)
    requires inputs != []
    ensures AddPieces(m, Items(key, inputs))
         == AddPiece(AddPieces(m, Items(key, inputs[..|inputs| - 1])), key + ":" + inputs[|inputs| - 1])
  {
    var items := Items(key, inputs);
    assert items[..|items| - 1] == Items(key, inputs[..|inputs| - 1]);
  }

  lemma GetSnoc(m: Mapping, key: string, inputs: seq<string>)
    requires inputs != []
    ensures var front, last := inputs[..|inputs| - 1], inputs[|inputs| - 1];
      var before := if front == [] then m else m[key := Get(m, key) + front];
      before[key := Get(before, key) + [last]] == m[key := Get(m, key) + inputs]
  {
    var front, last := inputs[..|inputs| - 1], inputs[|inputs| - 1];
    assert inputs == front + [last];
    assert Get(m, key) + front + [last] == Get(m, key) + inputs;
    if front == [] {
      assert Get(m, key) + [last] == Get(m, key) + inputs;
    }
  }

  lemma AddOne(m: Mapping, key: string, input: string, piece: string)
    requires Split(piece, ':') == [key, input]
    ensures AddPiece(m, piece) == m[key := Get(m, key) + [input]]
  {
    assert [key, input][1..] == [input];
  }

  lemma {:induction false} AddAllItems(m: Mapping, keys: seq<string>)
    requires Printable(m)
    requires forall i :: 0 <= i < |keys| ==> keys[i] in m
    requires forall i, k :: 0 <= i < k < |keys| ==> keys[i] != keys[k]
    ensures var read := AddPieces(map[], AllItems(m, keys));
      && (forall key :: key in read <==> key in keys)
      && (forall key :: key in read ==> key in m && read[key] == m[key])
  {
    if keys != [] {
      var front, last := keys[..|keys| - 1], keys[|keys| - 1];
      AddAllItems(m, front);
      AddConcat(map[], AllItems(m, front), Items(last, m[last]));
      var read := AddPieces(map[], AllItems(m, front));
      AddItems(read, last, m[last]);
      OneMoreKey(m, keys, read);
    }
  }

  lemma OneMoreKey(m: Mapping, keys: seq<string>, read: Mapping)
    requires keys != [] && forall i, k :: 0 <= i < k < |keys| ==> keys[i] != keys[k]
    requires var front, last := keys[..|keys| - 1], keys[|keys| - 1];
      && last in m
      && (forall key :: key in read <==> key in front)
      && (forall key :: key in read ==> key in m && read[key] == m[key])
    ensures var last := keys[|keys| - 1];
      var after := read[last := Get(read, last) + m[last]];
      (forall key :: key in after <==> key in keys) && (forall key :: key in after ==> key in m && after[key] == m[key])
  {
    var front, last := keys[..|keys| - 1], keys[|keys| - 1];
    assert keys == front + [last];
    assert last !in front;
    assert [] + m[last] == m[last];
  }

  lemma {:induction false} ItemsHaveNoComma(m: Mapping, keys: seq<string>)
    requires Printable(m) && forall i :: 0 <= i < |keys| ==> keys[i] in m
    ensures forall k :: 0 <= k < |AllItems(m, keys)| ==> ',' !in AllItems(m, keys)[k]
  {
    if keys != [] {
      ItemsHaveNoComma(m, keys[..|keys| - 1]);
    }
  }

  lemma {:induction false} ParsedIsPrintable(pieces: seq<string>)
    requires forall k :: 0 <= k < |pieces| ==> ',' !in pieces[k]
    ensures Printable(AddPieces(map[], pieces))
  {
    if pieces != [] {
      var front, last := pieces[..|pieces| - 1], pieces[|pieces| - 1];
      ParsedIsPrintable(front);
      PartsArePlain(last, ':', ',');
    }
  }

  /** Whatever the text, what is parsed from it can be printed. */
  lemma ParseIsPrintable(text: string)
    ensures Parse(text).Some? ==> Printable(Parse(text).value)
  {
    PartsArePlain(text, ',', ',');
    var pieces := Split(text, ',');
    if |pieces| >= 2 {
      ParsedIsPrintable(pieces[2..]);
    }
  }

  /** The round trip, exactly: a mapping printed in any order of its keys and prefixed with a GUID
      parses back to itself, list order included, if and only if no list is empty and no name
      contains a separator. */
  lemma RoundTrip(guid: string, kind: string, m: Mapping, keys: seq<string>)
    requires ',' !in guid && ',' !in kind && Walks(keys, m)
    ensures Parse(guid + "," + Print(kind, m, keys)) == Some(m) <==> Printable(m)
  {
    var text := guid + "," + Print(kind, m, keys);
    ParseIsPrintable(text);
    if Printable(m) {
      var items := AllItems(m, keys);
      forall i | 0 <= i < |keys| ensures keys[i] in m {
        assert keys[i] in keys;
      }
      ItemsHaveNoComma(m, keys);
      PrintedPieces(guid, kind, m, keys);
      AddAllItems(m, keys);
      hide Split, Print, AllItems;
      assert ([guid, kind] + items)[2..] == items;
      assert Parse(text).value == m;
    }
  }

  lemma PrintedPieces(guid: string, kind: string, m: Mapping, keys: seq<string>)
    requires ',' !in guid && ',' !in kind
    requires forall k :: 0 <= k < |AllItems(m, keys)| ==> ',' !in AllItems(m, keys)[k]
    ensures Split(guid + "," + Print(kind, m, keys), ',') == [guid, kind] + AllItems(m, keys)
  {
    hide Split, Tail, AllItems, PrintKeys;
    var items := AllItems(m, keys);
    PrintKeysIsTail(m, keys);
    SplitFirst(guid, ',', kind + Tail(',', items));
    assert guid + "," + Print(kind, m, keys) == guid + [','] + (kind + Tail(',', items));
    SplitTail(',', kind, items);
  }

  /** What is printed names its controller: read back behind a GUID, its first two fields are the GUID
      and the type. */
  lemma PrintedFields(guid: string, kind: string, m: Mapping, keys: seq<string>)
    requires ',' !in guid && ',' !in kind
    ensures var fields := Split(guid + "," + Print(kind, m, keys), ',');
      |fields| >= 2 && fields[0] == guid && fields[1] == kind
  {
    PrintKeysIsTail(m, keys);
    var items := AllItems(m, keys);
    SplitFirst(guid, ',', kind + Tail(',', items));
    assert guid + "," + Print(kind, m, keys) == guid + [','] + (kind + Tail(',', items));
    if items == [] {
      assert kind + "" == kind;
      SplitPlain(kind, ',');
    } else {
      TailFirst(',', items);
      var rest := items[0] + Tail(',', items[1..]);
      assert kind + Tail(',', items) == kind + [','] + rest;
      SplitFirst(kind, ',', rest);
    }
  }

  /** The keys are printed in the order given, and the inputs of each in the order of its list. */
  lemma PrintedInOrder(m: Mapping, keys: seq<string>)
    ensures keys == [] ==> PrintKeys(m, keys) == ""
    ensures keys != [] ==>
      PrintKeys(m, keys) == PrintList(keys[0], if keys[0] in m then m[keys[0]] else []) + PrintKeys(m, keys[1..])
  {
    if keys != [] {
      FirstKey(m, keys);
    }
  }

  lemma {:induction false} FirstKey(m: Mapping, keys: seq<string>)
    requires keys != []
    ensures PrintKeys(m, keys) == PrintList(keys[0], Get(m, keys[0])) + PrintKeys(m, keys[1..])
  {
    var front, rest := keys[..|keys| - 1], keys[1..];
    LastKey(m, keys);
    NoKeys(m);
    hide PrintKeys, PrintList, Get;
    if front == [] {
      assert rest == [];
    } else {
      FirstKey(m, front);
      LastKey(m, rest);
      assert rest[..|rest| - 1] == front[1..] && rest[|rest| - 1] == keys[|keys| - 1];
      var first, last := PrintList(keys[0], Get(m, keys[0])), PrintList(keys[|keys| - 1], Get(m, keys[|keys| - 1]));
      Regroup(first, PrintKeys(m, front[1..]), last);
    }
  }

  lemma Regroup(a: string, b: string, c: string)
    ensures a + b + c == a + (b + c)
  {
  }

  lemma NoKeys(m: Mapping)
    ensures PrintKeys(m, []) == ""
  {
  }

  lemma LastKey(m: Mapping, keys: seq<string>)
    requires keys != []
    ensures var last := keys[|keys| - 1];
      PrintKeys(m, keys) == PrintKeys(m, keys[..|keys| - 1]) + PrintList(last, Get(m, last))
  {
  }

  lemma ListPrintedInOrder(key: string, inputs: seq<string>)
    ensures inputs == [] ==> PrintList(key, inputs) == ""
    ensures inputs != [] ==>
      PrintList(key, inputs) == ("," + key + ":" + inputs[0]) + PrintList(key, inputs[1..])
  {
    if inputs != [] {
      FirstItem(key, inputs);
      assert Item(key, inputs[0]) == "," + key + ":" + inputs[0];
    }
  }

  lemma {:induction false} FirstItem(key: string, inputs: seq<string>)
    requires inputs != []
    ensures PrintList(key, inputs) == Item(key, inputs[0]) + PrintList(key, inputs[1..])
  {
    hide Item;
    var front, rest, last := inputs[..|inputs| - 1], inputs[1..], inputs[|inputs| - 1];
    if front == [] {
      assert rest == [] && inputs[0] == last;
      assert PrintList(key, front) == "";
    } else {
      FirstItem(key, front);
      assert rest[..|rest| - 1] == front[1..] && rest[|rest| - 1] == last;
      assert PrintList(key, rest) == PrintList(key, front[1..]) + Item(key, last);
    }
  }

  // ---- What one piece adds ----

  /** A piece without a colon is skipped. */
  lemma PieceWithoutColon(m: Mapping, piece: string)
    requires ':' !in piece
    ensures AddPiece(m, piece) == m
  {
    SplitPlain(piece, ':');
  }

  /** "key:input:input..." adds all its inputs, in order, behind those the key already has. */
  lemma PieceWithColons(m: Mapping, key: string, inputs: seq<string>)
    requires ':' !in key && inputs != [] && forall k :: 0 <= k < |inputs| ==> ':' !in inputs[k]
    ensures AddPiece(m, key + Tail(':', inputs)) == m[key := (if key in m then m[key] else []) + inputs]
  {
    SplitTail(':', key, inputs);
    assert ([key] + inputs)[1..] == inputs;
  }

  // ---- The GUID prefix ----

  function IndexOf(s: string, c: char): (i: int)
    ensures -1 <= i < |s|
    ensures i >= 0 ==> s[i] == c && c !in s[..i]
    ensures i < 0 ==> c !in s
  {
    if s == "" then -1
    else if s[0] == c then 0
    else
      var i := IndexOf(s[1..], c);
      assert i >= 0 ==> s[..i + 1] == [s[0]] + s[1..][..i];
      if i < 0 then -1 else i + 1
  }

  /** The migration strips everything up to the first comma. */
  function StripGuid(mapping: string): string {
    mapping[IndexOf(mapping, ',') + 1..]
  }

  function PrependGuid(guid: string, mapping: string): string {
    guid + "," + mapping
  }

  lemma {:induction false} FirstComma(guid: string, rest: string)
    requires ',' !in guid
    ensures IndexOf(guid + [','] + rest, ',') == |guid|
  {
    if guid == "" {
      assert guid + [','] + rest == [','] + rest;
    } else {
      FirstComma(guid[1..], rest);
      assert (guid + [','] + rest)[1..] == guid[1..] + [','] + rest;
    }
  }

  lemma StripUndoesPrepend(guid: string, mapping: string)
    requires ',' !in guid
    ensures StripGuid(PrependGuid(guid, mapping)) == mapping
  {
    FirstComma(guid, mapping);
    assert PrependGuid(guid, mapping) == guid + [','] + mapping;
  }

  /** Stripping and prepending again is the identity exactly on the mappings that carry that GUID. */
  lemma PrependUndoesStrip(guid: string, mapping: string)
    ensures PrependGuid(guid, StripGuid(mapping)) == mapping
      <==> ',' in mapping && mapping[..IndexOf(mapping, ',')] == guid
  {
    var i := IndexOf(mapping, ',');
    if i < 0 {
      assert |PrependGuid(guid, StripGuid(mapping))| > |mapping|;
    } else {
      CutAtComma(mapping, i);
      SamePrefix(guid, mapping[..i], mapping[i + 1..]);
    }
  }

  lemma SamePrefix(guid: string, own: string, rest: string)
    ensures PrependGuid(guid, rest) == own + "," + rest <==> guid == own
  {
    if PrependGuid(guid, rest) == own + "," + rest {
      assert |guid| == |own|;
      assert (guid + "," + rest)[..|guid|] == guid && (own + "," + rest)[..|own|] == own;
    }
  }

  lemma CutAtComma(mapping: string, i: nat)
    requires i < |mapping| && mapping[i] == ','
    ensures mapping == mapping[..i] + "," + mapping[i + 1..]
  {
  }
}
