/** JSON Pointer strings (RFC 6901, sections 3 and 4) as sequences of reference tokens. */
module JsonPointer {
  import opened Options
  import opened Strings

  function Replace(s: string, c: char, by': string): string {
    if s == "" then "" else (if s[0] == c then by' else [s[0]]) + Replace(s[1..], c, by')
  }

  /** Two passes, `~` first, as the generator makes them. */
  function Escape(token: string): string {
    Replace(Replace(token, '~', "~0"), '/', "~1")
  }

  /** The token an escaped token stands for, unless a `~` is followed by neither `0` nor `1`. */
  function Unescape(s: string): Option<string> {
    if s == "" then Some("")
    else if s[0] == '~' then
      if |s| >= 2 && s[1] in {'0', '1'} then Prepend(if s[1] == '0' then '~' else '/', Unescape(s[2..])) else None
    else Prepend(s[0], Unescape(s[1..]))
  }

  function Prepend(c: char, s: Option<string>): Option<string> {
    match s case Some(t) => Some([c] + t) case None => None
  }

  function UnescapeAll(parts: seq<string>): Option<seq<string>> {
    if parts == [] then Some([])
    else match (Unescape(parts[0]), UnescapeAll(parts[1..]))
      case (Some(token), Some(tokens)) => Some([token] + tokens)
      case _ => None
  }

  /** The reference tokens of a pointer. */
  function Parse(pointer: string): Option<seq<string>> {
    if pointer == "" then Some([])
    else if pointer[0] != '/' then None
    else UnescapeAll(Split(pointer[1..], '/'))
  }

  function Print(tokens: seq<string>): string {
    if tokens == [] then "" else ['/'] + (Escape(tokens[0]) + Print(tokens[1..]))
  }

  lemma ReplaceStep(x: char, rest: string, c: char, by': string)
    ensures Replace([x] + rest, c, by') == (if x == c then by' else [x]) + Replace(rest, c, by')
  {
    assert ([x] + rest)[1..] == rest;
  }

  lemma EscapeStep(c: char, rest: string)
    ensures Escape([c] + rest) == (if c == '~' then "~0" else if c == '/' then "~1" else [c]) + Escape(rest)
  {
    hide Replace;
    var first := Replace(rest, '~', "~0");
    ReplaceStep(c, rest, '~', "~0");
    if c == '~' {
      assert "~0" + first == ['~'] + (['0'] + first);
      ReplaceStep('~', ['0'] + first, '/', "~1");
      ReplaceStep('0', first, '/', "~1");
    } else {
      ReplaceStep(c, first, '/', "~1");
    }
  }

  /** Escaping leaves no separator and loses nothing. */
  lemma {:induction false} EscapePlain(token: string)
    requires '~' !in token && '/' !in token
    ensures Escape(token) == token
  {
    if token == "" {
      assert Escape("") == "";
    } else {
      hide Escape;
      EscapeStep(token[0], token[1..]);
      EscapePlain(token[1..]);
      assert token == [token[0]] + token[1..];
    }
  }

  lemma {:induction false} UnescapeEscape(token: string)
    ensures '/' !in Escape(token) && Unescape(Escape(token)) == Some(token)
  {
    if token != "" {
      EscapeStep(token[0], token[1..]);
      UnescapeEscape(token[1..]);
      assert token == [token[0]] + token[1..];
      var e := Escape(token);
      if token[0] == '~' || token[0] == '/' {
        assert e[2..] == Escape(token[1..]);
      } else {
        assert e[1..] == Escape(token[1..]);
      }
    }
  }

  lemma SplitFirst(first: string, rest: string)
    requires '/' !in first && (rest != "" ==> rest[0] == '/')
    ensures Split(first + rest, '/') == [first] + (if rest == "" then [] else Split(rest[1..], '/'))
  {
    if rest == "" {
      assert first + rest == first;
      SplitWhole(first, '/');
    } else {
      assert first + rest == first + ['/'] + rest[1..];
      SplitPiece(first, '/', rest[1..]);
    }
  }

  /** Printing then parsing gives back the tokens, whatever characters they hold. */
  lemma {:induction false} ParsePrint(tokens: seq<string>)
    ensures Parse(Print(tokens)) == Some(tokens)
  {
    if tokens != [] {
      hide Split, Escape, Unescape;
      var first, rest := Escape(tokens[0]), Print(tokens[1..]);
      UnescapeEscape(tokens[0]);
      ParsePrint(tokens[1..]);
      assert Print(tokens)[1..] == first + rest;
      SplitFirst(first, rest);
      var parts := if rest == "" then [] else Split(rest[1..], '/');
      assert UnescapeAll(parts) == Some(tokens[1..]);
      assert ([first] + parts)[1..] == parts;
      assert tokens == [tokens[0]] + tokens[1..];
    }
  }

  /** Every `~` is followed by `0` or `1`. */
  predicate EscapesOk(s: string) {
    s == "" || (if s[0] == '~' then |s| >= 2 && s[1] in {'0', '1'} && EscapesOk(s[2..]) else EscapesOk(s[1..]))
  }

  predicate IsPointer(s: string) {
    (s != "" ==> s[0] == '/') && EscapesOk(s)
  }

  lemma {:induction false} EscapesOkSplit(s: string)
    ensures EscapesOk(s) <==> UnescapeAll(Split(s, '/')).Some?
    ensures EscapesOk(s) ==> UnescapeAll(Split(s, '/')[1..]).Some? && Unescape(Split(s, '/')[0]).Some?
  {
    if s != "" {
      var rest := Split(s[1..], '/');
      EscapesOkSplit(s[1..]);
      if s[0] == '/' {
        assert Split(s, '/')[1..] == rest;
      } else if s[0] == '~' && |s| >= 2 && s[1] in {'0', '1'} {
        EscapesOkSplit(s[2..]);
        var rest2 := Split(s[2..], '/');
        assert rest == [[s[1]] + rest2[0]] + rest2[1..];
        assert Split(s, '/') == [[s[0]] + rest[0]] + rest[1..];
        assert Split(s, '/')[0] == [s[0], s[1]] + rest2[0];
        assert ([s[0], s[1]] + rest2[0])[2..] == rest2[0];
        assert Split(s, '/')[1..] == rest2[1..];
      } else {
        assert Split(s, '/') == [[s[0]] + rest[0]] + rest[1..];
        assert ([s[0]] + rest[0])[1..] == rest[0];
        assert Split(s, '/')[1..] == rest[1..];
        if s[0] == '~' && |s| >= 2 {
        }
      }
    }
  }

  /** The character test accepts exactly the strings that parse. */
  lemma PointersParse(s: string)
    ensures IsPointer(s) <==> Parse(s).Some?
  {
    if s != "" && s[0] == '/' {
      EscapesOkSplit(s[1..]);
    }
  }
}
