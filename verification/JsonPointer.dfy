/**
 Resolving JSON Pointers (resolve_pointer and resolve_schema_field of
 scripts/validate-swagger-contract.rb), against sections 3 and 4 of RFC 6901.
 */
module JsonPointer {
  import opened Text

  /** A document: `Str` is a string, `Scalar` a number or a truth value. */
  datatype Node =
    | Null
    | Str(text: string)
    | Scalar(text: string)
    | List(items: seq<Node>)
    | Hash(fields: map<string, Node>)

  /** An index on a value that does not take it. */
  datatype Error = NoMethod

  // ----- Reference tokens

  /** Replaces every occurrence, from left to right. */
  function Gsub(s: string, pat: string, rep: string): string
    requires pat != ""
  {
    if s == "" then ""
    else if pat <= s then rep + Gsub(s[|pat|..], pat, rep)
    else [s[0]] + Gsub(s[1..], pat, rep)
  }

  function Decode(token: string): string {
    Gsub(Gsub(token, "~1", "/"), "~0", "~")
  }

  /** How a key is written as a reference token (section 3 of RFC 6901). */
  function Encode(key: string): string {
    if key == "" then ""
    else (if key[0] == '~' then "~0" else if key[0] == '/' then "~1" else [key[0]]) + Encode(key[1..])
  }

  /** A key in which only the tilde is escaped. */
  function Tildes(key: string): string {
    if key == "" then "" else (if key[0] == '~' then "~0" else [key[0]]) + Tildes(key[1..])
  }

  lemma PrefixChars(pat: string, s: string)
    ensures pat <= s ==> forall i :: 0 <= i < |pat| ==> s[i] == pat[i]
  {
  }

  lemma GsubMiss(c: char, rest: string, pat: string, rep: string)
    requires |pat| == 2 && (c != pat[0] || rest == "" || rest[0] != pat[1])
    ensures Gsub([c] + rest, pat, rep) == [c] + Gsub(rest, pat, rep)
  {
    var s := [c] + rest;
    assert s[1..] == rest;
    PrefixChars(pat, s);
  }

  lemma GsubHit(pat: string, rest: string, rep: string)
    requires pat != ""
    ensures Gsub(pat + rest, pat, rep) == rep + Gsub(rest, pat, rep)
  {
    assert (pat + rest)[|pat|..] == rest;
  }

  lemma {:induction false} SlashesDecoded(key: string)
    ensures Gsub(Encode(key), "~1", "/") == Tildes(key)
  {
    hide Gsub;
    if key == "" {
      GsubEmpty("~1", "/");
    } else {
      var rest := Encode(key[1..]);
      SlashesDecoded(key[1..]);
      if key[0] == '~' {
        assert Encode(key) == ['~'] + (['0'] + rest);
        GsubMiss('~', ['0'] + rest, "~1", "/");
        GsubMiss('0', rest, "~1", "/");
      } else if key[0] == '/' {
        GsubHit("~1", rest, "/");
      } else {
        GsubMiss(key[0], rest, "~1", "/");
      }
    }
  }

  lemma GsubEmpty(pat: string, rep: string)
    requires pat != ""
    ensures Gsub("", pat, rep) == ""
  {
  }

  lemma {:induction false} TildesDecoded(key: string)
    ensures Gsub(Tildes(key), "~0", "~") == key
  {
    hide Gsub;
    if key == "" {
      GsubEmpty("~0", "~");
    } else {
      var rest := Tildes(key[1..]);
      TildesDecoded(key[1..]);
      if key[0] == '~' {
        GsubHit("~0", rest, "~");
      } else {
        GsubMiss(key[0], rest, "~0", "~");
      }
    }
  }

  /** Decoding a written key gives the key back. */
  lemma DecodeOfEncode(key: string)
    ensures Decode(Encode(key)) == key
  {
    SlashesDecoded(key);
    TildesDecoded(key);
  }

  /** With the two replacements the other way round, some key would come out wrong. */
  lemma OrderMatters()
    ensures Gsub(Gsub(Encode("~1"), "~0", "~"), "~1", "/") != "~1"
  {
    assert Encode("~1") == "~0" + "1";
    GsubHit("~0", "1", "~");
    assert Gsub("1", "~0", "~") == "1";
    assert "~" + "1" == "~1" + "";
    GsubHit("~1", "", "/");
    assert Gsub("~1", "~1", "/") == "/";
  }

  lemma {:induction false} EncodeShape(key: string)
    ensures '/' !in Encode(key) && (Encode(key) == "" <==> key == "")
  {
    if key != "" { EncodeShape(key[1..]); }
  }

  // ----- Paths

  function Child(node: Node, key: string): Node {
    if node.Hash? && key in node.fields then node.fields[key] else Null
  }

  function Walk(node: Node, path: seq<string>): Node
    decreases path
  {
    if path == [] then node else Walk(Child(node, path[0]), path[1..])
  }

  function EncodeAll(path: seq<string>): (r: seq<string>)
    ensures |r| == |path|
    ensures forall i :: 0 <= i < |path| ==> r[i] == Encode(path[i])
  {
    if path == [] then [] else [Encode(path[0])] + EncodeAll(path[1..])
  }

  function DecodeAll(tokens: seq<string>): (r: seq<string>)
    ensures |r| == |tokens|
    ensures forall i :: 0 <= i < |tokens| ==> r[i] == Decode(tokens[i])
  {
    if tokens == [] then [] else [Decode(tokens[0])] + DecodeAll(tokens[1..])
  }

  /** A path as a JSON Pointer: each key behind a slash. */
  function Written(path: seq<string>): string
    requires path != []
  {
    Join([""] + EncodeAll(path), '/')
  }

  /** Drops the empty strings at the end. */
  function DropTrailing(parts: seq<string>): (r: seq<string>)
    ensures r == [] || r[|r| - 1] != ""
    ensures |r| <= |parts| && r == parts[..|r|]
    ensures forall i :: |r| <= i < |parts| ==> parts[i] == ""
  {
    if parts != [] && parts[|parts| - 1] == "" then DropTrailing(parts[..|parts| - 1]) else parts
  }

  /** Ruby's split drops the empty fields at the end. */
  function RubySplit(s: string): seq<string> {
    DropTrailing(Split(s, '/'))
  }

  /** The keys of a JSON Pointer; there are none when it consists of slashes only. */
  function Tokens(pointer: string): Result<seq<string>, Error> {
    var parts := RubySplit(pointer);
    if parts == [] then Err(NoMethod) else Ok(DecodeAll(parts[1..]))
  }

  /** Anything but a string that starts with a slash resolves to nothing. */
  function ResolvePointer(root: Node, pointer: Option<string>): Result<Node, Error> {
    if pointer.None? || !("/" <= pointer.value) then Ok(Null)
    else
      var tokens := Tokens(pointer.value);
      if tokens.Err? then Err(tokens.error) else Ok(Walk(root, tokens.value))
  }

  /** The tokens of a written path: the path without the empty keys at its end. */
  lemma TokensOfWritten(path: seq<string>)
    requires path != []
    ensures "/" <= Written(path)
    ensures Tokens(Written(path)) ==
            if DropTrailing(path) == [] then Err(NoMethod) else Ok(DropTrailing(path))
  {
    hide Encode, Decode, Split;
    var parts := [""] + EncodeAll(path);
    forall i | 0 <= i < |path| ensures '/' !in Encode(path[i]) { EncodeShape(path[i]); }
    SplitOfJoin(parts, '/');
    assert parts[1..] == EncodeAll(path);
    StartsWithSlash(parts);
    DropEncoded(path);
    DecodeEncoded(DropTrailing(path));
  }

  lemma StartsWithSlash(parts: seq<string>)
    requires |parts| > 1 && parts[0] == ""
    ensures "/" <= Join(parts, '/')
  {
  }

  lemma {:induction false} DropEncoded(path: seq<string>)
    ensures var d := DropTrailing(path);
            DropTrailing([""] + EncodeAll(path)) == if d == [] then [] else [""] + EncodeAll(d)
  {
    hide EncodeAll, DropTrailing;
    if path == [] {
      DropNothing();
    } else {
      var n := |path| - 1;
      EncodedInit(path);
      DropStep(path);
      DropStep([""] + EncodeAll(path));
      if path[n] == "" {
        DropEncoded(path[..n]);
      }
    }
  }

  lemma DropNothing()
    ensures DropTrailing([]) == [] && DropTrailing([""] + EncodeAll([])) == []
  {
    assert [""] + EncodeAll([]) == [""] && [""][..0] == [];
  }

  lemma DropStep(parts: seq<string>)
    requires parts != []
    ensures DropTrailing(parts) == if parts[|parts| - 1] == "" then DropTrailing(parts[..|parts| - 1]) else parts
  {
  }

  lemma EncodedInit(path: seq<string>)
    requires path != []
    ensures var parts, n := [""] + EncodeAll(path), |path| - 1;
            && parts[..|parts| - 1] == [""] + EncodeAll(path[..n])
            && (parts[|parts| - 1] == "" <==> path[n] == "")
  {
    hide Encode;
    EncodeShape(path[|path| - 1]);
  }

  lemma DecodeEncoded(path: seq<string>)
    ensures DecodeAll(EncodeAll(path)) == path
  {
    hide Encode, Decode;
    forall i | 0 <= i < |path| ensures DecodeAll(EncodeAll(path))[i] == path[i] { DecodeOfEncode(path[i]); }
  }

  /** Resolving a written path walks it without the empty keys at its end, and fails when nothing is left. */
  lemma ResolveWritten(root: Node, path: seq<string>)
    requires path != []
    ensures ResolvePointer(root, Some(Written(path))) ==
            if DropTrailing(path) == [] then Err(NoMethod) else Ok(Walk(root, DropTrailing(path)))
  {
    hide Written, Tokens, Walk;
    TokensOfWritten(path);
  }

  /** A path is written with a slash before each key, and slashes and tildes escaped. */
  lemma WrittenExample()
    ensures Written(["a/b", "~"]) == "/a~1b/~0"
  {
    assert Encode("b") == "b" && Encode("/b") == "~1b" && Encode("a/b") == "a~1b" && Encode("~") == "~0";
    var parts := ["", "a~1b", "~0"];
    assert [""] + EncodeAll(["a/b", "~"]) == parts;
    assert parts[1..] == ["a~1b", "~0"] && parts[1..][1..] == ["~0"];
    assert Join(["~0"], '/') == "~0";
    assert Join(["a~1b", "~0"], '/') == "a~1b/~0";
  }

  /** Unlike in RFC 6901, the empty pointer does not stand for the whole document. */
  lemma EmptyPointer(root: Node)
    ensures ResolvePointer(root, Some("")) == Ok(Null) && ResolvePointer(root, None) == Ok(Null)
  {
  }

  /** A document with one value at the end of a path. */
  function Nested(path: seq<string>, value: Node): Node {
    if path == [] then value else Hash(map[path[0] := Nested(path[1..], value)])
  }

  lemma {:induction false} WalkNested(path: seq<string>, value: Node)
    ensures Walk(Nested(path, value), path) == value
  {
    if path != [] { WalkNested(path[1..], value); }
  }

  lemma {:induction false} WalkConcat(node: Node, a: seq<string>, b: seq<string>)
    ensures Walk(node, a + b) == Walk(Walk(node, a), b)
    decreases a
  {
    if a == [] {
      assert a + b == b;
    } else {
      assert (a + b)[1..] == a[1..] + b;
      WalkConcat(Child(node, a[0]), a[1..], b);
    }
  }

  lemma WalkTwo(node: Node, a: string, b: string)
    ensures Walk(node, [a, b]) == Child(Child(node, a), b)
  {
    assert [a, b][1..] == [b] && [b][1..] == [];
    assert Walk(Child(node, a), [b]) == Child(Child(node, a), b);
  }

  lemma {:induction false} WalkNull(b: seq<string>)
    ensures Walk(Null, b) == Null
  {
    if b != [] { WalkNull(b[1..]); }
  }

  /** Resolving a written path walks exactly that path, in every document, exactly when its last key is not empty. */
  lemma ResolveExactly(path: seq<string>)
    requires path != []
    ensures (forall root: Node :: ResolvePointer(root, Some(Written(path))) == Ok(Walk(root, path)))
       <==> path[|path| - 1] != ""
  {
    hide ResolvePointer, Walk, Written;
    var d := DropTrailing(path);
    forall root: Node
      ensures ResolvePointer(root, Some(Written(path))) == if d == [] then Err(NoMethod) else Ok(Walk(root, d))
    {
      ResolveWritten(root, path);
    }
    if path[|path| - 1] != "" {
      NothingDropped(path);
    } else if d == [] {
      assert ResolvePointer(Null, Some(Written(path))) != Ok(Walk(Null, path));
    } else {
      var root := Nested(d, Scalar(""));
      WalkNested(d, Scalar(""));
      BeyondScalar(root, path, d);
      assert ResolvePointer(root, Some(Written(path))) != Ok(Walk(root, path));
    }
  }

  lemma BeyondScalar(root: Node, path: seq<string>, d: seq<string>)
    requires |d| < |path| && d == path[..|d|] && Walk(root, d) == Scalar("")
    ensures Walk(root, path) == Null
  {
    var b := path[|d|..];
    assert path == d + b && b != [];
    WalkConcat(root, d, b);
    WalkNull(b[1..]);
  }

  // ----- Fields of a schema

  /** Ruby's index with a string: a field of a mapping, or a string that occurs in a string. */
  function Index(node: Node, key: string): Result<Node, Error> {
    match node
    case Hash(_) => Ok(Child(node, key))
    case Str(text) => Ok(if Find(text, key, 0) >= 0 then Str(key) else Null)
    case _ => Err(NoMethod)
  }

  /** One step into a schema: through its `properties`, if there are any. */
  function SchemaChild(node: Node, key: string): Result<Node, Error> {
    if !node.Hash? || "properties" !in node.fields then Ok(Null) else Index(node.fields["properties"], key)
  }

  function SchemaWalk(node: Node, path: seq<string>): Result<Node, Error>
    decreases path
  {
    if path == [] then Ok(node)
    else
      var next := SchemaChild(node, path[0]);
      if next.Err? then next else SchemaWalk(next.value, path[1..])
  }

  function ResolveSchemaField(schema: Node, pointer: Option<string>): Result<Node, Error> {
    if pointer.None? || !("/" <= pointer.value) then Ok(Null)
    else
      var tokens := Tokens(pointer.value);
      if tokens.Err? then Err(tokens.error) else SchemaWalk(schema, tokens.value)
  }

  /** The path with `properties` before every key. */
  function Interleaved(path: seq<string>): seq<string> {
    if path == [] then [] else ["properties", path[0]] + Interleaved(path[1..])
  }

  lemma {:induction false} InterleavedInit(path: seq<string>)
    requires path != []
    ensures var n := |path| - 1; Interleaved(path) == Interleaved(path[..n]) + ["properties", path[n]]
  {
    var n := |path| - 1;
    if n > 0 {
      assert path[1..][..n - 1] == path[..n][1..];
      InterleavedInit(path[1..]);
    }
  }

  /** The node has properties that take no index. */
  predicate Blocks(node: Node) {
    && node.Hash? && "properties" in node.fields
    && !node.fields["properties"].Hash? && !node.fields["properties"].Str?
  }

  /** The node has a string for properties, and the key occurs in it. */
  predicate FindsText(node: Node, key: string) {
    && node.Hash? && "properties" in node.fields && node.fields["properties"].Str?
    && Find(node.fields["properties"].text, key, 0) >= 0
  }

  /** The node in front of the `k`-th key. */
  function NodeAt(node: Node, path: seq<string>, k: nat): Node
    requires k <= |path|
  {
    Walk(node, Interleaved(path[..k]))
  }

  /** Some properties on the way take no index. */
  ghost predicate Blocked(node: Node, path: seq<string>) {
    exists k :: 0 <= k < |path| && Blocks(NodeAt(node, path, k))
  }

  /** The last key occurs in a string that stands for the properties. */
  predicate EndsInText(node: Node, path: seq<string>) {
    path != [] && FindsText(NodeAt(node, path, |path| - 1), path[|path| - 1])
  }

  lemma NodeAtStep(node: Node, path: seq<string>, k: nat)
    requires 0 < k <= |path|
    ensures NodeAt(node, path, 0) == node
    ensures NodeAt(node, path, k) == NodeAt(Child(Child(node, "properties"), path[0]), path[1..], k - 1)
  {
    var p := path[..k];
    assert path[..0] == [] && p[1..] == path[1..][..k - 1] && p[0] == path[0];
    WalkConcat(node, ["properties", p[0]], Interleaved(p[1..]));
    WalkTwo(node, "properties", p[0]);
  }

  /** Below anything but a mapping there is nothing, and nothing blocks. */
  lemma {:induction false} BelowLeaf(node: Node, path: seq<string>)
    requires !node.Hash? && path != []
    ensures SchemaWalk(node, path) == Ok(Null)
    ensures forall k: nat :: k <= |path| ==> !NodeAt(node, path, k).Hash?
    ensures NodeAt(node, path, |path|) == Null
    decreases path
  {
    hide NodeAt;
    NodeAtStep(node, path, |path|);
    if |path| > 1 {
      BelowLeaf(Null, path[1..]);
      forall k: nat | 0 < k <= |path| ensures NodeAt(node, path, k) == NodeAt(Null, path[1..], k - 1) {
        NodeAtStep(node, path, k);
      }
    } else {
      WalkedNothing(Null, path[1..]);
    }
  }

  lemma WalkedNothing(node: Node, path: seq<string>)
    requires path == []
    ensures NodeAt(node, path, 0) == node && SchemaWalk(node, path) == Ok(node)
  {
  }

  /**
   Walking a schema is walking the path with `properties` before every key, but for two
   cases: it fails exactly when properties on the way take no index, and it finds the
   last key itself exactly when that occurs in a string in place of the properties.
   */
  lemma {:induction false} SchemaWalkExactly(node: Node, path: seq<string>)
    ensures SchemaWalk(node, path) ==
            if Blocked(node, path) then Err(NoMethod)
            else if EndsInText(node, path) then Ok(Str(path[|path| - 1]))
            else Ok(NodeAt(node, path, |path|))
    decreases path
  {
    hide NodeAt, Find, Blocked, EndsInText;
    if path == [] {
      WalkedNothing(node, path);
      AtEnd(node);
    } else {
      var c, rest := Child(Child(node, "properties"), path[0]), path[1..];
      FirstKey(node, path);
      SchemaWalkExactly(c, rest);
      NodeAtStep(node, path, |path|);
      var next := SchemaChild(node, path[0]);
      assert next.Err? <==> Blocks(node);
      assert next == Err(NoMethod) || next == Ok(c) || (FindsText(node, path[0]) && next == Ok(Str(path[0])));
      assert next == Ok(c) ==> !FindsText(node, path[0]);
      if rest == [] {
        AtEnd(c);
        assert next.Ok? ==> SchemaWalk(next.value, rest) == next;
      } else if next.Ok? && next.value != c {
        BelowLeaf(next.value, rest);
        BelowLeaf(c, rest);
      }
    }
  }

  lemma AtEnd(node: Node)
    ensures !Blocked(node, []) && !EndsInText(node, [])
  {
  }

  /** The first key of a path, and the others. */
  lemma FirstKey(node: Node, path: seq<string>)
    requires path != []
    ensures var c, rest := Child(Child(node, "properties"), path[0]), path[1..];
            && (Blocked(node, path) <==> Blocks(node) || Blocked(c, rest))
            && (EndsInText(node, path) <==> if rest == [] then FindsText(node, path[0]) else EndsInText(c, rest))
  {
    hide NodeAt, Find, Blocks, FindsText;
    var c, rest := Child(Child(node, "properties"), path[0]), path[1..];
    forall k: nat | 0 < k <= |path|
      ensures NodeAt(node, path, k) == NodeAt(c, rest, k - 1)
    {
      NodeAtStep(node, path, k);
    }
    NodeAtStep(node, path, 1);
    if k :| 0 <= k < |path| && Blocks(NodeAt(node, path, k)) {
      if k > 0 { assert Blocks(NodeAt(c, rest, k - 1)); }
    }
    assert NodeAt(node, path, 0) == node;
    if k :| 0 <= k < |rest| && Blocks(NodeAt(c, rest, k)) {
      assert Blocks(NodeAt(node, path, k + 1));
    }
  }

  /**
   A schema field on a written path: the empty keys at its end are dropped, the lookup
   fails exactly when nothing is left or properties on the way take no index, and it is
   what the path with `properties` before every key resolves to exactly unless the last
   key is found in a string.
   */
  lemma SchemaFieldIsPointer(schema: Node, path: seq<string>)
    requires path != []
    ensures var d, r := DropTrailing(path), ResolveSchemaField(schema, Some(Written(path)));
            && (r.Err? <==> d == [] || Blocked(schema, d))
            && (r.Ok? ==>
                  && Interleaved(d) != []
                  && (r == ResolvePointer(schema, Some(Written(Interleaved(d)))) <==> !EndsInText(schema, d))
                  && (EndsInText(schema, d) ==> r == Ok(Str(d[|d| - 1]))))
  {
    hide Written, Tokens, SchemaWalk, Interleaved, Walk, Blocked, EndsInText;
    TokensOfWritten(path);
    var d := DropTrailing(path);
    if d != [] {
      SchemaWalkExactly(schema, d);
      InterleavedInit(d);
      ResolveWritten(schema, Interleaved(d));
      NothingDropped(Interleaved(d));
      assert d[..|d|] == d;
      if EndsInText(schema, d) { TextDiffers(schema, d); }
    }
  }

  /** A key found in a string is not on the plain path. */
  lemma TextDiffers(node: Node, path: seq<string>)
    requires EndsInText(node, path)
    ensures Walk(node, Interleaved(path)) == Null
  {
    hide Find;
    var n := |path| - 1;
    InterleavedInit(path);
    WalkConcat(node, Interleaved(path[..n]), ["properties", path[n]]);
    WalkTwo(NodeAt(node, path, n), "properties", path[n]);
  }

  lemma NothingDropped(path: seq<string>)
    requires path != [] && path[|path| - 1] != ""
    ensures DropTrailing(path) == path
  {
  }
}
