/** Template token expansion (Utils.replace, Utils.replaceTokens) and
    Utils.capitalize. `replaceTokens` scans the template once: `\` escapes
    the next character, `'text'` is copied without its quotes, and `{key}`
    is replaced by the token's string form. */
module Templates {
  import opened Base
  import opened Strings

  /** A value of the `tokens` map: an object with its string form, a
      `Supplier` (invoked first) with the string form of what it supplies,
      or null. */
  datatype Token = Value(text: string) | Supplier(supplied: Option<string>) | Null

  /** What `{key}` expands to, or None when the key is absent or its value
      (after invoking a supplier) is null. */
  function Lookup(tokens: map<string, Token>, key: string): Option<string> {
    if key !in tokens then None
    else
      match tokens[key]
      case Value(t) => Some(t)
      case Supplier(s) => s
      case Null => None
  }

  function BadEscape(value: string): Exception {
    IllegalArgument("Illegal patterns (Bad escape): " + value)
  }

  function Unclosed(c: char, value: string): Exception {
    IllegalArgument("Illegal patterns (Unclosed " + [c] + "): " + value)
  }

  /** `d` ends a token opened by `c`. */
  predicate Closes(c: char, d: char) {
    (c == '{' && d == '}') || (c == '\'' && d == '\'')
  }

  /** The inner loop: the text of a token opened by `c`, read from index `y`
      on with `key` read so far, and the index of its closing character. */
  function ScanToken(value: string, c: char, y: nat, key: string): (r: Result<(string, nat)>)
    requires y <= |value|
    ensures r.Ok? ==> y <= r.value.1 < |value| && Closes(c, value[r.value.1])
    decreases |value| - y
  {
    if y == |value| then Err(Unclosed(c, value))
    else if value[y] == '\\' then
      if y == |value| - 1 then Err(BadEscape(value))
      else ScanToken(value, c, y + 2, key + [value[y + 1]])
    else if Closes(c, value[y]) then Ok((key, y))
    else ScanToken(value, c, y + 1, key + [value[y]])
  }

  /** `p` followed by the text of `r`, or `r`'s exception. */
  function Prepend(p: string, r: Result<string>): Result<string> {
    match r
    case Ok(s) => Ok(p + s)
    case Err(e) => Err(e)
  }

  lemma PrependPrepend(a: string, b: string, r: Result<string>)
    ensures Prepend(a, Prepend(b, r)) == Prepend(a + b, r)
  {
    if r.Ok? {
      assert a + (b + r.value) == (a + b) + r.value;
    }
  }

  /** What a token contributes to the output. */
  function Piece(tokens: map<string, Token>, c: char, key: string): string {
    if c == '\'' then key
    else match Lookup(tokens, key)
      case Some(v) => v
      case None => "{" + key + "}"
  }

  /** The expansion of `value` from index `x` on: the outer loop of
      `replaceTokens`, one step per character, escape or token. */
  function Expand(tokens: map<string, Token>, value: string, x: nat): Result<string>
    requires x <= |value|
    decreases |value| - x
  {
    if x == |value| then Ok("")
    else if value[x] == '\\' then
      if x == |value| - 1 then Err(BadEscape(value))
      else Prepend([value[x + 1]], Expand(tokens, value, x + 2))
    else if value[x] == '{' || value[x] == '\'' then
      match ScanToken(value, value[x], x + 1, "")
      case Err(e) => Err(e)
      case Ok((key, y)) => Prepend(Piece(tokens, value[x], key), Expand(tokens, value, y + 1))
    else Prepend([value[x]], Expand(tokens, value, x + 1))
  }

  /** `replaceTokens(tokens, value)`, the scanner as written: `buf` and `key`
      are appended to inside two nested index loops. */
  method ReplaceTokens(tokens: map<string, Token>, value: string) returns (r: Result<string>)
    ensures r == Expand(tokens, value, 0)
  {
    var buf := "";
    var x := 0;
    PrependPrepend("", "", Expand(tokens, value, 0));
    assert Prepend("", Expand(tokens, value, 0)) == Expand(tokens, value, 0) by {
      if Expand(tokens, value, 0).Ok? { assert "" + Expand(tokens, value, 0).value == Expand(tokens, value, 0).value; }
    }
    while x < |value|
      invariant 0 <= x <= |value|
      invariant Expand(tokens, value, 0) == Prepend(buf, Expand(tokens, value, x))
    {
      var c := value[x];
      if c == '\\' {
        if x == |value| - 1 {
          return Err(BadEscape(value));
        }
        PrependPrepend(buf, [value[x + 1]], Expand(tokens, value, x + 2));
        x := x + 1;
        buf := buf + [value[x]];
      } else if c == '{' || c == '\'' {
        var key := "";
        var y := x + 1;
        ghost var start := x;
        while true
          invariant x == start && x + 1 <= y <= |value|
          invariant ScanToken(value, c, x + 1, "") == ScanToken(value, c, y, key)
          decreases |value| - y
        {
          if y == |value| {
            return Err(Unclosed(c, value));
          }
          var d := value[y];
          if d == '\\' {
            if y == |value| - 1 {
              return Err(BadEscape(value));
            }
            y := y + 1;
            key := key + [value[y]];
          } else if c == '{' && d == '}' {
            x := y;
            break;
          } else if c == '\'' && d == '\'' {
            x := y;
            break;
          } else {
            key := key + [d];
          }
          y := y + 1;
        }
        PrependPrepend(buf, Piece(tokens, c, key), Expand(tokens, value, x + 1));
        if c == '\'' {
          buf := buf + key;
        } else {
          var v := Lookup(tokens, key);
          buf := buf + (if v.None? then "{" + key + "}" else v.value);
        }
      } else {
        PrependPrepend(buf, [c], Expand(tokens, value, x + 1));
        buf := buf + [c];
      }
      x := x + 1;
    }
    assert buf + "" == buf;
    return Ok(buf);
  }

  /** A character that `replaceTokens` copies as it is. */
  predicate Ordinary(ch: char) {
    ch != '\\' && ch != '{' && ch != '\''
  }

  /** Characters other than `\`, `{` and `'` are copied verbatim, in order. */
  lemma {:induction false} OrdinaryIsCopied(tokens: map<string, Token>, value: string, x: nat)
    requires x <= |value|
    requires forall i :: x <= i < |value| ==> Ordinary(value[i])
    ensures Expand(tokens, value, x) == Ok(value[x..])
    decreases |value| - x
  {
    if x < |value| {
      OrdinaryIsCopied(tokens, value, x + 1);
      assert [value[x]] + value[x + 1..] == value[x..];
    }
  }

  /** Two results that agree on success and on the text produced; the
      exception messages quote the whole template, so they are not compared. */
  predicate Agree(r1: Result<string>, r2: Result<string>) {
    r1.Ok? == r2.Ok? && (r1.Ok? ==> r1.value == r2.value)
  }

  /** A token scan inside `q` reads the same when `p` is put in front. */
  lemma {:induction false} ScanTokenShift(p: string, q: string, c: char, y: nat, key: string)
    requires y <= |q|
    ensures var r1, r2 := ScanToken(p + q, c, |p| + y, key), ScanToken(q, c, y, key);
      r1.Ok? == r2.Ok? && (r1.Ok? ==> r1.value.0 == r2.value.0 && r1.value.1 == |p| + r2.value.1)
    decreases |q| - y
  {
    if y < |q| {
      assert (p + q)[|p| + y] == q[y];
      if q[y] == '\\' {
        if y < |q| - 1 {
          assert (p + q)[|p| + y + 1] == q[y + 1];
          ScanTokenShift(p, q, c, y + 2, key + [q[y + 1]]);
        }
      } else if !Closes(c, q[y]) {
        ScanTokenShift(p, q, c, y + 1, key + [q[y]]);
      }
    }
  }

  /** The expansion of `q` from `x` reads the same when `p` is put in front. */
  lemma {:induction false} ExpandShift(tokens: map<string, Token>, p: string, q: string, x: nat)
    requires x <= |q|
    ensures Agree(Expand(tokens, p + q, |p| + x), Expand(tokens, q, x))
    decreases |q| - x
  {
    if x < |q| {
      assert (p + q)[|p| + x] == q[x];
      if q[x] == '\\' {
        if x < |q| - 1 {
          assert (p + q)[|p| + x + 1] == q[x + 1];
          ExpandShift(tokens, p, q, x + 2);
        }
      } else if q[x] == '{' || q[x] == '\'' {
        ScanTokenShift(p, q, q[x], x + 1, "");
        var r := ScanToken(q, q[x], x + 1, "");
        if r.Ok? {
          ExpandShift(tokens, p, q, r.value.1 + 1);
        }
      } else {
        ExpandShift(tokens, p, q, x + 1);
      }
    }
  }

  /** A token that closes inside `p` scans the same in `p + q`. */
  lemma {:induction false} ScanTokenExtend(p: string, q: string, c: char, y: nat, key: string)
    requires y <= |p| && ScanToken(p, c, y, key).Ok?
    ensures ScanToken(p + q, c, y, key) == ScanToken(p, c, y, key)
    decreases |p| - y
  {
    assert (p + q)[y] == p[y];
    if p[y] == '\\' {
      assert (p + q)[y + 1] == p[y + 1];
      ScanTokenExtend(p, q, c, y + 2, key + [p[y + 1]]);
    } else if !Closes(c, p[y]) {
      ScanTokenExtend(p, q, c, y + 1, key + [p[y]]);
    }
  }

  /** Once `p` expands without error, `p + q` expands as `p` followed by `q`. */
  lemma {:induction false} ExpandExtend(tokens: map<string, Token>, p: string, q: string, x: nat)
    requires x <= |p| && Expand(tokens, p, x).Ok?
    ensures Agree(Expand(tokens, p + q, x), Prepend(Expand(tokens, p, x).value, Expand(tokens, q, 0)))
    decreases |p| - x
  {
    if x == |p| {
      ExpandShift(tokens, p, q, 0);
      var r := Expand(tokens, q, 0);
      if r.Ok? { assert "" + r.value == r.value; }
    } else {
      assert (p + q)[x] == p[x];
      if p[x] == '\\' {
        assert (p + q)[x + 1] == p[x + 1];
        ExpandExtend(tokens, p, q, x + 2);
        PrependPrepend([p[x + 1]], Expand(tokens, p, x + 2).value, Expand(tokens, q, 0));
      } else if p[x] == '{' || p[x] == '\'' {
        ScanTokenExtend(p, q, p[x], x + 1, "");
        var r := ScanToken(p, p[x], x + 1, "");
        var piece := Piece(tokens, p[x], r.value.0);
        ExpandExtend(tokens, p, q, r.value.1 + 1);
        PrependPrepend(piece, Expand(tokens, p, r.value.1 + 1).value, Expand(tokens, q, 0));
      } else {
        ExpandExtend(tokens, p, q, x + 1);
        PrependPrepend([p[x]], Expand(tokens, p, x + 1).value, Expand(tokens, q, 0));
      }
    }
  }

  /** Expansion is compositional: when `p` expands, `p + q` expands exactly
      when `q` does, to the two expansions one after the other. */
  lemma ExpandConcat(tokens: map<string, Token>, p: string, q: string)
    requires Expand(tokens, p, 0).Ok?
    ensures Expand(tokens, p + q, 0).Ok? <==> Expand(tokens, q, 0).Ok?
    ensures Expand(tokens, p + q, 0).Ok? ==>
      Expand(tokens, p + q, 0).value == Expand(tokens, p, 0).value + Expand(tokens, q, 0).value
  {
    ExpandExtend(tokens, p, q, 0);
  }

  /** Outside a token a backslash emits the next character literally. */
  lemma EscapeIsLiteral(tokens: map<string, Token>, ch: char, rest: string)
    ensures Agree(Expand(tokens, ['\\', ch] + rest, 0), Prepend([ch], Expand(tokens, rest, 0)))
  {
    var p := ['\\', ch];
    assert Expand(tokens, p, 2) == Ok("");
    assert [ch] + "" == [ch];
    assert Expand(tokens, p, 0) == Ok([ch]);
    ExpandConcat(tokens, p, rest);
  }

  /** The expansion of `p` from `x` that succeeds fails on `p` followed by
      a lone backslash, with "Bad escape" quoting the whole template. */
  lemma {:induction false} ExpandTrailingBackslash(tokens: map<string, Token>, p: string, x: nat)
    requires x <= |p| && Expand(tokens, p, x).Ok?
    ensures Expand(tokens, p + ['\\'], x) == Err(BadEscape(p + ['\\']))
    decreases |p| - x
  {
    var v := p + ['\\'];
    if x < |p| {
      assert v[x] == p[x];
      if p[x] == '\\' {
        assert v[x + 1] == p[x + 1];
        ExpandTrailingBackslash(tokens, p, x + 2);
      } else if p[x] == '{' || p[x] == '\'' {
        ScanTokenExtend(p, ['\\'], p[x], x + 1, "");
        ExpandTrailingBackslash(tokens, p, ScanToken(p, p[x], x + 1, "").value.1 + 1);
      } else {
        ExpandTrailingBackslash(tokens, p, x + 1);
      }
    } else {
      assert v[|p|] == '\\';
    }
  }

  /** A template that expands without error followed by a lone backslash
      raises IllegalArgumentException "Bad escape". */
  lemma TrailingBackslashFails(tokens: map<string, Token>, p: string)
    requires Expand(tokens, p, 0).Ok?
    ensures Expand(tokens, p + ['\\'], 0) == Err(BadEscape(p + ['\\']))
    ensures Expand(tokens, p + ['\\'], 0).error.IllegalArgument?
  {
    ExpandTrailingBackslash(tokens, p, 0);
  }

  /** A token scan over characters that neither escape nor close reads them
      all into the key, up to the closing character at `z`. */
  lemma {:induction false} ScanPlain(value: string, c: char, y: nat, z: nat, key: string)
    requires y <= z < |value| && Closes(c, value[z])
    requires forall i :: y <= i < z ==> value[i] != '\\' && !Closes(c, value[i])
    ensures ScanToken(value, c, y, key) == Ok((key + value[y..z], z))
    decreases z - y
  {
    if y < z {
      ScanPlain(value, c, y + 1, z, key + [value[y]]);
      assert key + [value[y]] + value[y + 1..z] == key + value[y..z];
    } else {
      assert key + value[y..z] == key;
    }
  }

  /** A token scan that meets neither an escape nor a closing character
      runs off the end: "Unclosed". */
  lemma {:induction false} ScanUnclosed(value: string, c: char, y: nat, key: string)
    requires y <= |value|
    requires forall i :: y <= i < |value| ==> value[i] != '\\' && !Closes(c, value[i])
    ensures ScanToken(value, c, y, key) == Err(Unclosed(c, value))
    decreases |value| - y
  {
    if y < |value| {
      ScanUnclosed(value, c, y + 1, key + [value[y]]);
    }
  }

  /** `'text'` emits the text without the quotes, even when it holds `{`. */
  lemma QuotedIsLiteral(tokens: map<string, Token>, text: string)
    requires forall i :: 0 <= i < |text| ==> text[i] != '\\' && text[i] != '\''
    ensures Expand(tokens, "'" + text + "'", 0) == Ok(text)
  {
    var v := "'" + text + "'";
    assert forall i :: 1 <= i < |v| - 1 ==> v[i] == text[i - 1];
    assert v[0] == '\'' && v[|v| - 1] == '\'';
    ScanPlain(v, '\'', 1, |v| - 1, "");
    assert v[1..|v| - 1] == text;
    assert "" + text == text;
    assert ScanToken(v, '\'', 1, "") == Ok((text, |v| - 1));
    assert Expand(tokens, v, |v|) == Ok("");
    assert text + "" == text;
  }

  /** `{key}` emits the token's string form when it is present and
      non-null, and re-emits `{key}` otherwise. */
  lemma KeyIsReplaced(tokens: map<string, Token>, key: string)
    requires forall i :: 0 <= i < |key| ==> key[i] != '\\' && key[i] != '}'
    ensures Expand(tokens, "{" + key + "}", 0) ==
      Ok(match Lookup(tokens, key) case Some(v) => v case None => "{" + key + "}")
  {
    var v := "{" + key + "}";
    assert forall i :: 1 <= i < |v| - 1 ==> v[i] == key[i - 1];
    assert v[0] == '{' && v[|v| - 1] == '}';
    ScanPlain(v, '{', 1, |v| - 1, "");
    assert v[1..|v| - 1] == key;
    assert "" + key == key;
    assert ScanToken(v, '{', 1, "") == Ok((key, |v| - 1));
    assert Expand(tokens, v, |v|) == Ok("");
    var piece := Piece(tokens, '{', key);
    assert piece + "" == piece;
  }

  /** An opening `{` or `'` that is never closed is an error ("Unclosed"). */
  lemma UnclosedFails(tokens: map<string, Token>, c: char, text: string)
    requires c == '{' || c == '\''
    requires forall i :: 0 <= i < |text| ==> text[i] != '\\' && !Closes(c, text[i])
    ensures Expand(tokens, [c] + text, 0) == Err(Unclosed(c, [c] + text))
  {
    ScanUnclosed([c] + text, c, 1, "");
  }

  /** A token scan over plain characters that reaches a final backslash
      fails with "Bad escape". */
  lemma {:induction false} ScanTrailingBackslash(value: string, c: char, y: nat, key: string)
    requires y < |value| && value[|value| - 1] == '\\'
    requires forall i :: y <= i < |value| - 1 ==> value[i] != '\\' && !Closes(c, value[i])
    ensures ScanToken(value, c, y, key) == Err(BadEscape(value))
    decreases |value| - y
  {
    if y < |value| - 1 {
      ScanTrailingBackslash(value, c, y + 1, key + [value[y]]);
    }
  }

  /** A backslash as the last character inside an open token fails with
      "Bad escape". */
  lemma TrailingBackslashInToken(tokens: map<string, Token>, c: char, text: string)
    requires c == '{' || c == '\''
    requires forall i :: 0 <= i < |text| ==> text[i] != '\\' && !Closes(c, text[i])
    ensures Expand(tokens, [c] + text + ['\\'], 0) == Err(BadEscape([c] + text + ['\\']))
  {
    var v := [c] + text + ['\\'];
    assert forall i :: 1 <= i < |v| - 1 ==> v[i] == text[i - 1];
    ScanTrailingBackslash(v, c, 1, "");
  }

  /** `s` written inside a token opened by `c`: a backslash goes before
      every backslash and every character that would close the token. */
  function Esc(c: char, s: string): (e: string)
    ensures |s| <= |e| <= 2 * |s|
  {
    if s == [] then []
    else (if s[0] == '\\' || Closes(c, s[0]) then ['\\', s[0]] else [s[0]]) + Esc(c, s[1..])
  }

  /** Where the escaped form of a non-empty `s` sits in `value`: an escape
      pair or the first character itself, then the escaped rest. */
  lemma EscHead(value: string, c: char, y: nat, z: nat, s: string)
    requires s != [] && y <= z <= |value| && value[y..z] == Esc(c, s)
    ensures s[0] == '\\' || Closes(c, s[0]) ==>
      y + 2 <= z && value[y] == '\\' && value[y + 1] == s[0] && value[y + 2..z] == Esc(c, s[1..])
    ensures !(s[0] == '\\' || Closes(c, s[0])) ==>
      y + 1 <= z && value[y] == s[0] && value[y + 1..z] == Esc(c, s[1..])
  {
    var e := value[y..z];
    assert value[y] == e[0];
    if s[0] == '\\' || Closes(c, s[0]) {
      assert value[y + 1] == e[1];
      assert value[y + 2..z] == e[2..];
    } else {
      assert value[y + 1..z] == e[1..];
    }
  }

  /** A token scan over the escaped form of `s` reads exactly `s` into the
      key and stops at the closing character that follows. */
  lemma {:induction false} ScanEscaped(value: string, c: char, y: nat, z: nat, key: string, s: string)
    requires y <= z < |value| && value[y..z] == Esc(c, s) && Closes(c, value[z])
    ensures ScanToken(value, c, y, key) == Ok((key + s, z))
    decreases |s|
  {
    if s == [] {
      assert key + s == key;
    } else {
      EscHead(value, c, y, z, s);
      if s[0] == '\\' || Closes(c, s[0]) {
        ScanEscaped(value, c, y + 2, z, key + [s[0]], s[1..]);
      } else {
        ScanEscaped(value, c, y + 1, z, key + [s[0]], s[1..]);
      }
      assert key + [s[0]] + s[1..] == key + s;
    }
  }

  /** Inside a token a backslash still escapes, and the escapes are resolved
      before the key is looked up: for every `s`, `{` + escaped `s` + `}`
      looks up `s` itself (re-emitting `{s}` when it is absent), and `'` +
      escaped `s` + `'` emits `s`. */
  lemma EscapesResolvedInKey(tokens: map<string, Token>, s: string)
    ensures Expand(tokens, "{" + Esc('{', s) + "}", 0) ==
      Ok(match Lookup(tokens, s) case Some(v) => v case None => "{" + s + "}")
    ensures Expand(tokens, "'" + Esc('\'', s) + "'", 0) == Ok(s)
  {
    EscapedToken(tokens, '{', s);
    EscapedToken(tokens, '\'', s);
  }

  /** The token `c` + escaped `s` + closer expands to the piece for `s`. */
  lemma EscapedToken(tokens: map<string, Token>, c: char, s: string)
    requires c == '{' || c == '\''
    ensures var v := [c] + Esc(c, s) + [if c == '{' then '}' else c];
      Expand(tokens, v, 0) == Ok(Piece(tokens, c, s))
  {
    var e := Esc(c, s);
    var v := [c] + e + [if c == '{' then '}' else c];
    assert v[1..1 + |e|] == e;
    assert Closes(c, v[1 + |e|]);
    ScanEscaped(v, c, 1, 1 + |e|, "", s);
    assert "" + s == s;
    assert Expand(tokens, v, |v|) == Ok("");
    var piece := Piece(tokens, c, s);
    assert piece + "" == piece;
  }

  /** `replace(vars, value)`: a value of at most 2 UTF-16 units, or
      without `{`, is returned as it is; anything else goes through
      `replaceTokens`. */
  function Replace(vars: map<string, Token>, value: string): (r: Result<string>)
    ensures '{' !in value ==> r == Ok(value)
    ensures Utf16Len(value) <= 2 ==> r == Ok(value)
    ensures Utf16Len(value) > 2 && '{' in value ==> r == Expand(vars, value, 0)
  {
    if Utf16Len(value) <= 2 || IndexOf(value, '{') == -1 then Ok(value) else Expand(vars, value, 0)
  }

  /** The length test counts UTF-16 units: a supplementary character
      followed by `{` is three units long, so it is expanded, and the
      unclosed `{` is an error. */
  lemma ReplaceCountsUtf16Units(value: string)
    requires value == "\U{1F600}{"
    ensures Utf16Len(value) == 3
    ensures Replace(map[], value) == Err(Unclosed('{', value))
  {
    assert |value| == 2 && Supplementary(value[0]) && value[1] == '{';
    assert value[1..][1..] == [];
    assert Utf16Len(value) == 2 + Utf16Len(value[1..]) == 3;
    assert ScanToken(value, '{', 2, "") == Err(Unclosed('{', value));
    assert Expand(map[], value, 1) == Err(Unclosed('{', value));
    assert Ordinary(value[0]);
  }

  /** On a template of ordinary characters the short cut and the full
      expansion agree. */
  lemma ReplaceAgreesOnOrdinary(vars: map<string, Token>, value: string)
    requires forall i :: 0 <= i < |value| ==> Ordinary(value[i])
    ensures Replace(vars, value) == Expand(vars, value, 0)
  {
    OrdinaryIsCopied(vars, value, 0);
    assert value[0..] == value;
  }

  /** The short cut skips escapes and quotes as well: without a `{`, a
      dangling backslash or a quoted word is returned untouched, where
      `replaceTokens` would fail or drop the quotes. */
  lemma ReplaceShortCut()
    ensures Replace(map[], "a\\") == Ok("a\\") && Expand(map[], "a\\", 0).Err?
    ensures Replace(map[], "'ab'") == Ok("'ab'") && Expand(map[], "'ab'", 0) == Ok("ab")
  {
    var e := "a\\";
    assert e[1] == '\\';
    assert Expand(map[], e, 1) == Err(BadEscape(e));
    QuotedIsLiteral(map[], "ab");
    assert "'" + "ab" + "'" == "'ab'";
  }

  /** `capitalize`: upper-case the first character of a string longer than
      one UTF-16 unit; every other character stays. (When the first
      character is supplementary Java upper-cases only its high surrogate,
      which leaves it as it is, like the ASCII mapping here.) */
  function Capitalize(s: string): (r: string)
    ensures |r| == |s|
    ensures Utf16Len(s) > 1 ==> r[0] == ToUpperChar(s[0])
    ensures Utf16Len(s) <= 1 ==> r == s
    ensures forall i :: 1 <= i < |s| ==> r[i] == s[i]
  {
    if Utf16Len(s) > 1 then [ToUpperChar(s[0])] + s[1..] else s
  }

  /** Capitalizing twice is capitalizing once. */
  lemma CapitalizeIdempotent(s: string)
    ensures Capitalize(Capitalize(s)) == Capitalize(s)
  {
    var c := Capitalize(s);
    if Utf16Len(s) > 1 {
      assert ToUpperChar(c[0]) == c[0];
      assert [ToUpperChar(c[0])] + c[1..] == c;
    }
  }
}
