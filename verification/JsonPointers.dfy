/** JSON Pointers (RFC 6901): printing a path of tokens and reading the last keyword back. */
module JsonPointers {
  import opened Strings

  /** Section 3 of RFC 6901: `~` is written `~0` and `/` is written `~1`. */
  function Escape(token: string): string {
    if token == "" then ""
    else (if token[0] == '~' then "~0" else if token[0] == '/' then "~1" else [token[0]]) + Escape(token[1..])
  }

  /** One pass over the text that replaces `~1` and `~0`. */
  function Unescape(s: string): string
    decreases |s|
  {
    if |s| < 2 then s
    else if s[0] == '~' && s[1] == '1' then "/" + Unescape(s[2..])
    else if s[0] == '~' && s[1] == '0' then "~" + Unescape(s[2..])
    else [s[0]] + Unescape(s[1..])
  }

  function Pointer(path: seq<string>): string {
    if path == [] then "" else "/" + Escape(path[0]) + Pointer(path[1..])
  }

  /** The last non-empty string, empty when there is none. */
  function LastNonEmpty(parts: seq<string>): string {
    if parts == [] then ""
    else if parts[|parts| - 1] != "" then parts[|parts| - 1]
    else LastNonEmpty(parts[..|parts| - 1])
  }

  /** The text after the first `#`, or all of it. */
  function Fragment(location: string): string {
    var i := IndexOf(location, "#");
    if i < 0 then location else location[i + 1..]
  }

  function Keyword(location: string): string {
    Unescape(LastNonEmpty(Split(Fragment(location), "/")))
  }

  // ---------- the loops ----------

  method JsonPointer(path: seq<string>) returns (builder: string)
    ensures builder == Pointer(path)
  {
    builder := "";
    assert path[..0] == [];
    for i := 0 to |path|
      invariant builder == Pointer(path[..i])
    {
      assert path[..i + 1] == path[..i] + [path[i]];
      PointerSnoc(path[..i], path[i]);
      builder := builder + "/" + Escape(path[i]);
    }
    assert path[..|path|] == path;
  }

  method KeywordFromLocation(location: string) returns (keyword: string)
    ensures keyword == Keyword(location)
  {
    var parts := Split(Fragment(location), "/");
    var last := "";
    var i := |parts| - 1;
    assert parts[..|parts|] == parts;
    while i >= 0
      invariant -1 <= i < |parts|
      invariant last == ""
      invariant LastNonEmpty(parts) == LastNonEmpty(parts[..i + 1])
    {
      assert parts[..i + 1][..i] == parts[..i];
      if parts[i] != "" {
        last := parts[i];
        break;
      }
      i := i - 1;
    }
    keyword := Unescape(last);
  }

  // ---------- printing and reading ----------

  lemma {:induction false} PointerSnoc(path: seq<string>, token: string)
    ensures Pointer(path + [token]) == Pointer(path) + "/" + Escape(token)
  {
    if path == [] {
      assert path + [token] == [token] && [token][1..] == [];
      assert Pointer([]) == "";
    } else {
      assert (path + [token])[1..] == path[1..] + [token];
      PointerSnoc(path[1..], token);
      assert "/" + Escape(path[0]) + (Pointer(path[1..]) + "/" + Escape(token))
          == "/" + Escape(path[0]) + Pointer(path[1..]) + "/" + Escape(token);
    }
  }

  lemma {:induction false} EscapeRoundTrip(token: string)
    ensures Unescape(Escape(token)) == token && '/' !in Escape(token)
    ensures Escape(token) == "" <==> token == ""
  {
    if token != "" {
      EscapeRoundTrip(token[1..]);
      var rest := Escape(token[1..]);
      var s := Escape(token);
      if token[0] == '~' || token[0] == '/' {
        assert s[2..] == rest;
      } else {
        assert s[1..] == rest;
        if |s| < 2 {
          assert rest == "";
        }
      }
      assert token == [token[0]] + token[1..];
    }
  }

  function Escapes(path: seq<string>): seq<string> {
    if path == [] then [] else [Escape(path[0])] + Escapes(path[1..])
  }

  lemma {:induction false} EscapesAt(path: seq<string>)
    ensures |Escapes(path)| == |path|
    ensures forall i :: 0 <= i < |path| ==> Escapes(path)[i] == Escape(path[i])
    ensures forall p :: p in Escapes(path) ==> '/' !in p
  {
    if path != [] {
      EscapesAt(path[1..]);
      EscapeRoundTrip(path[0]);
    }
  }

  lemma {:induction false} PointerJoins(path: seq<string>)
    ensures Pointer(path) == Join([""] + Escapes(path), "/")
  {
    if path != [] {
      PointerJoins(path[1..]);
      var tail := Escapes(path);
      assert ([""] + tail)[1..] == tail;
      var rest := Escapes(path[1..]);
      assert tail[1..] == rest;
      if rest == [] {
        assert path[1..] == [];
        assert Pointer(path[1..]) == "";
      } else {
        assert ([""] + rest)[1..] == rest;
        assert Pointer(path[1..]) == "" + "/" + Join(rest, "/");
      }
    }
  }

  lemma PointerSplits(path: seq<string>)
    ensures Split(Pointer(path), "/") == [""] + Escapes(path)
  {
    PointerJoins(path);
    EscapesAt(path);
    SplitJoin([""] + Escapes(path), '/');
  }

  /** Different paths have different pointers. */
  lemma PointerInjective(p: seq<string>, q: seq<string>)
    requires Pointer(p) == Pointer(q)
    ensures p == q
  {
    PointerSplits(p);
    PointerSplits(q);
    assert ([""] + Escapes(p))[1..] == Escapes(p) && ([""] + Escapes(q))[1..] == Escapes(q);
    EscapesAt(p);
    EscapesAt(q);
    forall i | 0 <= i < |p| ensures p[i] == q[i] {
      EscapeRoundTrip(p[i]);
      EscapeRoundTrip(q[i]);
    }
  }

  lemma {:induction false} LastOfEscapes(path: seq<string>)
    ensures LastNonEmpty([""] + Escapes(path)) == Escape(LastNonEmpty(path))
    decreases |path|
  {
    EscapesAt(path);
    var parts := [""] + Escapes(path);
    if path == [] {
      assert parts == [""] && parts[..0] == [];
    } else {
      var init := path[..|path| - 1];
      EscapesAt(init);
      EscapeRoundTrip(path[|path| - 1]);
      assert parts[..|parts| - 1] == [""] + Escapes(init);
      LastOfEscapes(init);
    }
  }

  lemma {:induction false} FragmentIs(location: string, before: string, fragment: string)
    requires '#' !in before
    requires location == before + "#" + fragment || (location == fragment && '#' !in location)
    ensures Fragment(location) == fragment
  {
    if '#' in location {
      IndexOfChar(before, '#', fragment);
      assert location == before + ['#'] + fragment;
    } else {
      MissingChar(location, "#", '#');
    }
  }

  /** The keyword of a printed location is the last non-empty token of its path. */
  lemma KeywordOfPointer(location: string, before: string, path: seq<string>)
    requires '#' !in before
    requires location == before + "#" + Pointer(path) || (location == Pointer(path) && '#' !in location)
    ensures Keyword(location) == LastNonEmpty(path)
  {
    assert Fragment(location) == Pointer(path) by {
      FragmentIs(location, before, Pointer(path));
    }
    assert LastNonEmpty(Split(Pointer(path), "/")) == Escape(LastNonEmpty(path)) by {
      PointerSplits(path);
      LastOfEscapes(path);
    }
    EscapeRoundTrip(LastNonEmpty(path));
  }
  lemma {:induction false} LastNonEmptyIs(before: seq<string>, token: string, after: seq<string>)
    requires forall p :: p in after ==> p == ""
    ensures token != "" ==> LastNonEmpty(before + [token] + after) == token
    ensures LastNonEmpty(after) == ""
    decreases |after|
  {
    var n := |after| - 1;
    var all := before + [token] + after;
    if after == [] {
      assert all[|all| - 1] == token;
    } else {
      assert all[..|all| - 1] == before + [token] + after[..n] && all[|all| - 1] == after[n];
      assert after[n] in after && forall p :: p in after[..n] ==> p in after;
      LastNonEmptyIs(before, token, after[..n]);
    }
  }

  /** The keyword behind the printed path is its last token that is not empty, whatever precedes the first `#`;
      a path of empty tokens has none. */
  lemma {:induction false} KeywordIs(location: string, before: string, path: seq<string>, token: string,
                                     after: seq<string>)
    requires '#' !in before && token != "" && forall p :: p in after ==> p == ""
    ensures Keyword(before + "#" + Pointer(path + [token] + after)) == token
    ensures location == Pointer(path + [token] + after) && '#' !in location ==> Keyword(location) == token
    ensures Keyword(before + "#" + Pointer(after)) == ""
  {
    LastNonEmptyIs(path, token, after);
    KeywordOfPointer(before + "#" + Pointer(path + [token] + after), before, path + [token] + after);
    KeywordOfPointer(before + "#" + Pointer(after), before, after);
    if location == Pointer(path + [token] + after) && '#' !in location {
      KeywordOfPointer(location, "", path + [token] + after);
    }
  }

  // ---------- the escapes of the standard ----------

  lemma {:induction false} EscapeConcat(a: string, b: string)
    ensures Escape(a + b) == Escape(a) + Escape(b)
    decreases |a|
  {
    if a == "" {
      assert a + b == b;
    } else {
      assert (a + b)[0] == a[0] && (a + b)[1..] == a[1..] + b;
      EscapeConcat(a[1..], b);
    }
  }

  lemma {:induction false} EscapeOfPlain(a: string)
    requires '~' !in a && '/' !in a
    ensures Escape(a) == a
  {
    if a != "" {
      assert a[0] in a && a == [a[0]] + a[1..];
      EscapeOfPlain(a[1..]);
    }
  }

  lemma {:induction false} EscapeOfOne(c: char)
    ensures Escape([c]) == if c == '~' then ['~', '0'] else if c == '/' then ['~', '1'] else [c]
  {
    assert [c][1..] == "";
  }

  /** Section 3 of RFC 6901, for the first character of a token that is written with an escape. */
  lemma {:induction false} EscapeParts(a: string, b: string)
    requires '~' !in a && '/' !in a
    ensures Escape(a) == a
    ensures Escape(a + ['~'] + b) == a + ['~', '0'] + Escape(b)
    ensures Escape(a + ['/'] + b) == a + ['~', '1'] + Escape(b)
  {
    EscapeOfPlain(a);
    EscapeOfOne('~');
    EscapeOfOne('/');
    EscapeConcat(a, ['~']);
    EscapeConcat(a + ['~'], b);
    EscapeConcat(a, ['/']);
    EscapeConcat(a + ['/'], b);
  }

  lemma {:induction false} UnescapeHead(head: char, rest: string, s: string)
    requires head != '~' && s == [head] + rest
    ensures Unescape(s) == [head] + Unescape(rest)
  {
    assert s[1..] == rest;
  }

  lemma {:induction false} UnescapePlain(a: string, b: string, s: string)
    requires '~' !in a && s == a + b
    ensures Unescape(s) == a + Unescape(b)
    decreases |a|
  {
    if a == "" {
      assert s == b;
    } else {
      var head, tail := a[0], a[1..];
      var rest := tail + b;
      assert Unescape(rest) == tail + Unescape(b) by {
        assert forall c :: c in tail ==> c in a;
        UnescapePlain(tail, b, rest);
      }
      assert Unescape(s) == [head] + Unescape(rest) by {
        assert head in a && s == [head] + rest;
        UnescapeHead(head, rest, s);
      }
      assert [head] + (tail + Unescape(b)) == a + Unescape(b);
    }
  }

  lemma {:induction false} UnescapePair(c: char, b: string, s: string)
    requires s == ['~', c] + b
    ensures Unescape(s) == if c == '0' then ['~'] + Unescape(b) else if c == '1' then ['/'] + Unescape(b)
                           else ['~'] + Unescape([c] + b)
  {
    assert s[2..] == b && s[1..] == [c] + b;
  }

  /** Text without a tilde stays, also before a single one at the end. */
  lemma {:induction false} UnescapeAlone(a: string, tilde: string)
    requires '~' !in a && tilde == ['~']
    ensures Unescape(a) == a && Unescape(a + tilde) == a + tilde
  {
    assert Unescape(a) == a by {
      UnescapePlain(a, "", a);
    }
    assert Unescape(a + tilde) == a + tilde by {
      UnescapePlain(a, tilde, a + tilde);
    }
  }

  /** The text up to the first tilde stays; the tilde and the digit behind it are one character, and a tilde with
      no such digit is itself. */
  lemma {:induction false} UnescapeParts(a: string, c: char, b: string, s: string)
    requires '~' !in a && s == ['~', c] + b
    ensures c == '0' ==> Unescape(a + s) == a + (['~'] + Unescape(b))
    ensures c == '1' ==> Unescape(a + s) == a + (['/'] + Unescape(b))
    ensures c != '0' && c != '1' ==> Unescape(a + s) == a + (['~'] + Unescape([c] + b))
  {
    assert Unescape(a + s) == a + Unescape(s) by {
      UnescapePlain(a, s, a + s);
    }
    UnescapePair(c, b, s);
  }
}
