/** The payload `TagToJson` builds for a tag-shape edit: the tag text reshaped by the
    requested change, its quotes escaped, wrapped as a one-field `{"text": "..."}` record. */
module Payload {
  import opened Strings
  import Tags

  /** `enmTagChanges`. */
  datatype TagChange = DoNothing | OpenTag | CloseTag

  /** The rewrite step of `TagToJson`: `OpenTag` turns every `/>` into `>`; `CloseTag` turns
      every `>` into `/>`, but only in text without any `/`. */
  function Reshape(text: string, change: TagChange): string
  {
    match change
    case OpenTag => ReplaceAll(text, "/>", ">")
    case CloseTag => if IndexOf(text, "/", 0) == -1 then ReplaceAll(text, ">", "/>") else text
    case DoNothing => text
  }

  /** Every `"` becomes `\"`. */
  function EscapeQuotes(text: string): string
  {
    ReplaceAll(text, "\"", "\\\"")
  }

  /** Every `\"` becomes `"`: how a JSON reader takes back what `EscapeQuotes` wrote. */
  function UnescapeQuotes(text: string): string
  {
    ReplaceAll(text, "\\\"", "\"")
  }

  const PayloadPrefix: string := "{\"text\": \""
  const PayloadSuffix: string := "\"}"

  /** The string `TagToJson` hands to the JSON parser. */
  function TagPayload(text: string, change: TagChange): string
  {
    PayloadPrefix + EscapeQuotes(Reshape(text, change)) + PayloadSuffix
  }

  // ---------------------------------------------------------------------------------------
  // The rewrite step

  ghost predicate HasSlash(text: string)
  {
    exists k :: 0 <= k < |text| && text[k] == '/'
  }

  /** `DoNothing` keeps the text, and so does `CloseTag` on text that has a `/` anywhere. */
  lemma ReshapeKeeps(text: string, change: TagChange)
    requires change == DoNothing || (change == CloseTag && HasSlash(text))
    ensures Reshape(text, change) == text
  {
    if change == CloseTag {
      var k :| 0 <= k < |text| && text[k] == '/';
      MatchAtChar(text, '/', k);
    }
  }

  /** `CloseTag` on text without `/` adds one character per `>`, and when there is a `>` the
      result is a self-closing tag. */
  lemma CloseTagCloses(text: string)
    requires !HasSlash(text)
    ensures |Reshape(text, CloseTag)| == |text| + CountChar(text, '>')
    ensures (exists k :: 0 <= k < |text| && text[k] == '>') ==> Tags.IsClosedTag(Reshape(text, CloseTag))
  {
    NoSlashIndex(text);
    ReplaceCharLength(text, '>', "/>");
    if exists k :: 0 <= k < |text| && text[k] == '>' {
      var k :| 0 <= k < |text| && text[k] == '>';
      ClosedAfterBracket(text, k);
    }
  }

  lemma NoSlashIndex(text: string)
    requires !HasSlash(text)
    ensures IndexOf(text, "/", 0) == -1
  {
    var i := IndexOf(text, "/", 0);
    if i != -1 {
      MatchAtChar(text, '/', i);
    }
  }

  /** Replacing every `>` by `/>` puts a `/>` in the text for the `>` at `k`. */
  lemma {:induction false} ClosedAfterBracket(text: string, k: int)
    requires 0 <= k < |text| && text[k] == '>'
    ensures Tags.IsClosedTag(ReplaceAll(text, ">", "/>"))
    decreases |text|
  {
    MatchAtChar(text, '>', 0);
    var r := ReplaceAll(text, ">", "/>");
    if text[0] == '>' {
      assert r[0] == '/' && r[1] == '>';
    } else {
      ClosedAfterBracket(text[1..], k - 1);
      var t := ReplaceAll(text[1..], ">", "/>");
      var j :| 0 <= j < |t| - 1 && t[j] == '/' && t[j + 1] == '>';
      assert r == [text[0]] + t;
      assert r[j + 1] == '/' && r[j + 2] == '>';
    }
  }

  /** `OpenTag` changes the text exactly when it is a self-closing tag. */
  lemma OpenTagChangesIffClosed(text: string)
    ensures Reshape(text, OpenTag) == text <==> !Tags.IsClosedTag(text)
  {
    if Tags.IsClosedTag(text) {
      var k :| 0 <= k < |text| - 1 && text[k] == '/' && text[k + 1] == '>';
      OpenTagShortens(text, k);
    } else {
      Tags.ClosedTagOccurs(text);
      ReplaceAllAbsent(text, "/>", ">");
    }
  }

  /** Turning `/>` into `>` never lengthens the text. */
  lemma {:induction false} OpenTagNoLonger(text: string)
    ensures |ReplaceAll(text, "/>", ">")| <= |text|
    decreases |text|
  {
    if 2 <= |text| {
      if MatchAt(text, "/>", 0) {
        OpenTagNoLonger(text[2..]);
      } else {
        OpenTagNoLonger(text[1..]);
      }
    }
  }

  /** ... and shortens it when it has a `/>` at `k`. */
  lemma {:induction false} OpenTagShortens(text: string, k: int)
    requires 0 <= k < |text| - 1 && text[k] == '/' && text[k + 1] == '>'
    ensures |ReplaceAll(text, "/>", ">")| < |text|
    decreases |text|
  {
    if MatchAt(text, "/>", 0) {
      OpenTagNoLonger(text[2..]);
    } else {
      if k == 0 {
        forall j | 0 <= j < 2 ensures text[j] == "/>"[j] {
          if j == 1 { }
        }
        assert false;
      }
      OpenTagShortens(text[1..], k - 1);
    }
  }

  /** `OpenTag` undoes `CloseTag` on text without `/`. */
  lemma {:induction false} CloseThenOpen(text: string)
    requires !HasSlash(text)
    ensures Reshape(Reshape(text, CloseTag), OpenTag) == text
  {
    NoSlashIndex(text);
    CloseThenOpenReplace(text);
  }

  lemma {:induction false} CloseThenOpenReplace(text: string)
    requires !HasSlash(text)
    ensures ReplaceAll(ReplaceAll(text, ">", "/>"), "/>", ">") == text
    decreases |text|
  {
    if text != [] {
      MatchAtChar(text, '>', 0);
      var t := ReplaceAll(text[1..], ">", "/>");
      assert !HasSlash(text[1..]) by {
        forall k | 0 <= k < |text[1..]| ensures text[1..][k] != '/' {
          assert text[1..][k] == text[k + 1];
        }
      }
      CloseThenOpenReplace(text[1..]);
      if text[0] == '>' {
        var u := "/>" + t;
        assert MatchAt(u, "/>", 0);
        assert u[2..] == t;
      } else {
        var u := [text[0]] + t;
        assert text[0] != '/';
        if 2 <= |u| {
          assert !MatchAt(u, "/>", 0) by { assert u[0] != "/>"[0]; }
          assert u[1..] == t;
        } else {
          assert t == [];
          assert text[1..] == [];
        }
      }
    }
  }

  // ---------------------------------------------------------------------------------------
  // Escaping and the payload

  /** Escaping adds one `\` per quote. */
  lemma EscapeLength(text: string)
    ensures |EscapeQuotes(text)| == |text| + CountChar(text, '"')
  {
    ReplaceCharLength(text, '"', "\\\"");
  }

  /** Every quote of the escaped text is preceded by a backslash. */
  lemma {:induction false} EscapedQuotesArePreceded(text: string)
    ensures var e := EscapeQuotes(text);
      forall k :: 0 <= k < |e| && e[k] == '"' ==> 0 < k && e[k - 1] == '\\'
    decreases |text|
  {
    if text != [] {
      MatchAtChar(text, '"', 0);
      EscapedQuotesArePreceded(text[1..]);
      var t := EscapeQuotes(text[1..]);
      var e := EscapeQuotes(text);
      var head := if text[0] == '"' then "\\\"" else [text[0]];
      assert e == head + t;
      forall k | 0 <= k < |e| && e[k] == '"' ensures 0 < k && e[k - 1] == '\\' {
        if k >= |head| {
          assert e[k] == t[k - |head|];
          if k - |head| > 0 {
            assert e[k - 1] == t[k - |head| - 1];
          }
        }
      }
    }
  }

  /** The escaped text never starts with a quote. */
  lemma EscapedStart(text: string)
    requires text != []
    ensures EscapeQuotes(text)[0] != '"'
  {
    MatchAtChar(text, '"', 0);
  }

  /** Unescaping gives back the text that was escaped. */
  lemma {:induction false} UnescapeEscape(text: string)
    ensures UnescapeQuotes(EscapeQuotes(text)) == text
    decreases |text|
  {
    if text != [] {
      MatchAtChar(text, '"', 0);
      var t := EscapeQuotes(text[1..]);
      UnescapeEscape(text[1..]);
      EscapeLength(text[1..]);
      if text[0] == '"' {
        var u := "\\\"" + t;
        assert MatchAt(u, "\\\"", 0);
        assert u[2..] == t;
      } else {
        var u := [text[0]] + t;
        if 2 <= |u| {
          EscapedStart(text[1..]);
          assert !MatchAt(u, "\\\"", 0) by { assert u[1] != "\\\""[1]; }
          assert u[1..] == t;
        }
      }
    }
  }

  /** The payload is `{"text": "` + the escaped, reshaped text + `"}`, and unescaping its
      middle gives back the reshaped text. */
  lemma PayloadRoundTrip(text: string, change: TagChange)
    ensures var p := TagPayload(text, change);
      && |p| == |PayloadPrefix| + |Reshape(text, change)| + CountChar(Reshape(text, change), '"') + |PayloadSuffix|
      && p[..|PayloadPrefix|] == PayloadPrefix
      && p[|p| - |PayloadSuffix|..] == PayloadSuffix
      && UnescapeQuotes(p[|PayloadPrefix|..|p| - |PayloadSuffix|]) == Reshape(text, change)
  {
    var e := EscapeQuotes(Reshape(text, change));
    var p := TagPayload(text, change);
    EscapeLength(Reshape(text, change));
    UnescapeEscape(Reshape(text, change));
    assert p == PayloadPrefix + e + PayloadSuffix;
    assert p[|PayloadPrefix|..|p| - |PayloadSuffix|] == e;
  }
}
