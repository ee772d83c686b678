/**
 The two pieces of logic in the upload page's script: the `escapeHtml` helper that
 renders file names into the list, and the filter applied to dropped files.

 `escapeHtml` is five global single-character replacements applied in turn: `&`
 first, then `<`, `>`, `"` and `'`. Each replacement text introduced after the
 first contains `&`, so replacing `&` anywhere but first would escape those
 entities a second time.
 */
module Page {
  import opened Text
  import Items

  /** Replaces every occurrence of `c` in `s` by `by`, left to right (`String.replace` with a global pattern). */
  function ReplaceAll(s: string, c: char, repl: string): (r: string)
    ensures c !in s ==> r == s
    ensures c !in repl ==> c !in r
    ensures forall x :: x in r ==> x in s || x in repl
    decreases |s|
  {
    if |s| == 0 then ""
    else (if s[0] == c then repl else [s[0]]) + ReplaceAll(s[1..], c, repl)
  }

  /** Replacing distributes over concatenation. */
  lemma {:induction false} ReplaceAllAppend(a: string, b: string, c: char, repl: string)
    ensures ReplaceAll(a + b, c, repl) == ReplaceAll(a, c, repl) + ReplaceAll(b, c, repl)
    decreases |a|
  {
    if |a| == 0 {
      assert a + b == b;
    } else {
      assert (a + b)[1..] == a[1..] + b;
      ReplaceAllAppend(a[1..], b, c, repl);
    }
  }

  const Amp: string := "&amp;"
  const Lt: string := "&lt;"
  const Gt: string := "&gt;"
  const Quot: string := "&quot;"
  const Apos: string := "&#039;"

  /** The page's `escapeHtml`: the five replacements in the order the script applies them. */
  function EscapeHtml(s: string): string {
    var a := ReplaceAll(s, '&', Amp);
    var b := ReplaceAll(a, '<', Lt);
    var c := ReplaceAll(b, '>', Gt);
    var d := ReplaceAll(c, '"', Quot);
    ReplaceAll(d, '\'', Apos)
  }

  /** The characters `escapeHtml` rewrites. */
  predicate IsSpecial(x: char) {
    x == '&' || x == '<' || x == '>' || x == '"' || x == '\''
  }

  /** The text one character stands for after escaping: an entity for the five special characters, itself otherwise. */
  function EscapeChar(x: char): (r: string)
    ensures !IsSpecial(x) ==> r == [x]
    ensures IsSpecial(x) ==> |r| > 1 && r[0] == '&' && '&' !in r[1..]
  {
    match x
    case '&' => Amp
    case '<' => Lt
    case '>' => Gt
    case '"' => Quot
    case '\'' => Apos
    case _ => [x]
  }

  /** Reference definition: every character escaped on its own, the results concatenated in order. */
  function EscapeChars(s: string): string
    decreases |s|
  {
    if |s| == 0 then "" else EscapeChar(s[0]) + EscapeChars(s[1..])
  }

  lemma ReplaceAllSingle(x: char, c: char, repl: string)
    ensures ReplaceAll([x], c, repl) == if x == c then repl else [x]
  {
    assert ReplaceAll([x], c, repl) == (if x == c then repl else [x]) + ReplaceAll([], c, repl);
  }

  /** The five-pass replacement applied to a single character yields that character's escape. */
  lemma EscapeHtmlOfChar(x: char)
    ensures EscapeHtml([x]) == EscapeChar(x)
  {
    ReplaceAllSingle(x, '&', Amp);
    var a := if x == '&' then Amp else [x];
    if x == '&' {
      assert '<' !in a && '>' !in a && '"' !in a && '\'' !in a;
    } else {
      ReplaceAllSingle(x, '<', Lt);
      var b := if x == '<' then Lt else [x];
      if x == '<' {
        assert '>' !in b && '"' !in b && '\'' !in b;
      } else {
        ReplaceAllSingle(x, '>', Gt);
        var c := if x == '>' then Gt else [x];
        if x == '>' {
          assert '"' !in c && '\'' !in c;
        } else {
          ReplaceAllSingle(x, '"', Quot);
          var d := if x == '"' then Quot else [x];
          if x == '"' {
            assert '\'' !in d;
          } else {
            ReplaceAllSingle(x, '\'', Apos);
          }
        }
      }
    }
  }

  /** `EscapeHtml` distributes over concatenation, since each of its passes does. */
  lemma EscapeHtmlAppend(s: string, t: string)
    ensures EscapeHtml(s + t) == EscapeHtml(s) + EscapeHtml(t)
  {
    var a1, a2 := ReplaceAll(s, '&', Amp), ReplaceAll(t, '&', Amp);
    ReplaceAllAppend(s, t, '&', Amp);
    var b1, b2 := ReplaceAll(a1, '<', Lt), ReplaceAll(a2, '<', Lt);
    ReplaceAllAppend(a1, a2, '<', Lt);
    var c1, c2 := ReplaceAll(b1, '>', Gt), ReplaceAll(b2, '>', Gt);
    ReplaceAllAppend(b1, b2, '>', Gt);
    var d1, d2 := ReplaceAll(c1, '"', Quot), ReplaceAll(c2, '"', Quot);
    ReplaceAllAppend(c1, c2, '"', Quot);
    ReplaceAllAppend(d1, d2, '\'', Apos);
  }

  /** With `&` replaced first, the five passes escape each character independently. */
  lemma {:induction false} EscapeHtmlIsPerChar(s: string)
    ensures EscapeHtml(s) == EscapeChars(s)
    decreases |s|
  {
    if |s| == 0 {
      assert EscapeHtml(s) == "";
    } else {
      assert s == [s[0]] + s[1..];
      EscapeHtmlAppend([s[0]], s[1..]);
      EscapeHtmlOfChar(s[0]);
      EscapeHtmlIsPerChar(s[1..]);
    }
  }

  /** A character with markup meaning inside an HTML element or a quoted attribute. */
  predicate IsMarkup(x: char) {
    x == '<' || x == '>' || x == '"' || x == '\''
  }

  predicate NoMarkup(t: string) {
    forall i :: 0 <= i < |t| ==> !IsMarkup(t[i])
  }

  lemma EscapeCharNoMarkup(x: char)
    ensures NoMarkup(EscapeChar(x))
  {
    var e := EscapeChar(x);
    if IsSpecial(x) {
      forall i | 0 <= i < |e|
        ensures !IsMarkup(e[i])
      {
        assert e[i] in "&amplt;gquo#039";
      }
    }
  }

  lemma NoMarkupAppend(t: string, u: string)
    requires NoMarkup(t) && NoMarkup(u)
    ensures NoMarkup(t + u)
  {
    var w := t + u;
    forall i | 0 <= i < |w|
      ensures !IsMarkup(w[i])
    {
      if i < |t| {
        assert w[i] == t[i];
      } else {
        assert w[i] == u[i - |t|];
      }
    }
  }

  lemma {:induction false} EscapeCharsNoMarkup(s: string)
    ensures NoMarkup(EscapeChars(s))
    decreases |s|
  {
    if |s| > 0 {
      EscapeCharNoMarkup(s[0]);
      EscapeCharsNoMarkup(s[1..]);
      NoMarkupAppend(EscapeChar(s[0]), EscapeChars(s[1..]));
    }
  }

  /** The output of `escapeHtml` contains none of `<`, `>`, `"` and `'`. */
  lemma EscapeHtmlNoMarkup(s: string)
    ensures NoMarkup(EscapeHtml(s))
  {
    EscapeHtmlIsPerChar(s);
    EscapeCharsNoMarkup(s);
  }

  /** One of the five entities starts at position `i` of `t`. */
  predicate EntityAt(t: string, i: nat)
    requires i <= |t|
  {
    var rest := t[i..];
    || (|Amp| <= |rest| && rest[..|Amp|] == Amp)
    || (|Lt| <= |rest| && rest[..|Lt|] == Lt)
    || (|Gt| <= |rest| && rest[..|Gt|] == Gt)
    || (|Quot| <= |rest| && rest[..|Quot|] == Quot)
    || (|Apos| <= |rest| && rest[..|Apos|] == Apos)
  }

  /** Whatever follows, an entity at position `i` of `t` is still there in `t + u`. */
  lemma EntityAtExtend(t: string, u: string, i: nat)
    requires i <= |t| && EntityAt(t, i)
    ensures EntityAt(t + u, i)
  {
    var rest, rest' := t[i..], (t + u)[i..];
    assert rest' == rest + u;
    assert forall n :: 0 <= n <= |rest| ==> rest'[..n] == rest[..n];
  }

  /** An entity at position `i` of `u` is still one at position `|t| + i` of `t + u`. */
  lemma EntityAtShift(t: string, u: string, i: nat)
    requires i <= |u| && EntityAt(u, i)
    ensures EntityAt(t + u, |t| + i)
  {
    assert (t + u)[|t| + i..] == u[i..];
  }

  /** Every `&` in `t` begins an entity. */
  predicate AmpersandsAreEntities(t: string) {
    forall i :: 0 <= i < |t| && t[i] == '&' ==> EntityAt(t, i)
  }

  /** The escape of a single character has its only `&` at the front, where an entity begins. */
  lemma EscapeCharEntities(x: char)
    ensures AmpersandsAreEntities(EscapeChar(x))
  {
    var e := EscapeChar(x);
    forall i | 0 <= i < |e| && e[i] == '&'
      ensures EntityAt(e, i)
    {
      assert i == 0;
      assert e[0..] == e;
    }
  }

  /** Appending keeps every `&` of both parts at the head of an entity. */
  lemma AmpersandsAreEntitiesAppend(t: string, u: string)
    requires AmpersandsAreEntities(t) && AmpersandsAreEntities(u)
    ensures AmpersandsAreEntities(t + u)
  {
    var w := t + u;
    forall i | 0 <= i < |w| && w[i] == '&'
      ensures EntityAt(w, i)
    {
      if i < |t| {
        assert t[i] == '&';
        EntityAtExtend(t, u, i);
      } else {
        assert u[i - |t|] == '&';
        EntityAtShift(t, u, i - |t|);
      }
    }
  }

  lemma {:induction false} EscapeCharsEntities(s: string)
    ensures AmpersandsAreEntities(EscapeChars(s))
    decreases |s|
  {
    if |s| > 0 {
      EscapeCharEntities(s[0]);
      EscapeCharsEntities(s[1..]);
      AmpersandsAreEntitiesAppend(EscapeChar(s[0]), EscapeChars(s[1..]));
    }
  }

  /** Every `&` in the output of `escapeHtml` begins one of the five entities it emits. */
  lemma EscapeHtmlAmpersands(s: string)
    ensures AmpersandsAreEntities(EscapeHtml(s))
  {
    EscapeHtmlIsPerChar(s);
    EscapeCharsEntities(s);
  }

  /** True when `t` begins with `p`. */
  predicate StartsWith(t: string, p: string) {
    |p| <= |t| && t[..|p|] == p
  }

  /** Decodes the five entities back into the characters they stand for; any other text is kept. */
  function Unescape(t: string): string
    decreases |t|
  {
    if |t| == 0 then ""
    else if StartsWith(t, Amp) then "&" + Unescape(t[|Amp|..])
    else if StartsWith(t, Lt) then "<" + Unescape(t[|Lt|..])
    else if StartsWith(t, Gt) then ">" + Unescape(t[|Gt|..])
    else if StartsWith(t, Quot) then "\"" + Unescape(t[|Quot|..])
    else if StartsWith(t, Apos) then "'" + Unescape(t[|Apos|..])
    else [t[0]] + Unescape(t[1..])
  }

  /** Decoding the escape of one character, followed by anything, gives back that character first. */
  lemma UnescapeEscapeChar(x: char, rest: string)
    ensures Unescape(EscapeChar(x) + rest) == [x] + Unescape(rest)
  {
    var e := EscapeChar(x);
    var t := e + rest;
    assert t[..|e|] == e;
    assert t[|e|..] == rest;
    assert Amp[1] == 'a' && Lt[1] == 'l' && Gt[1] == 'g' && Quot[1] == 'q';
    if IsSpecial(x) {
      assert t[1] == e[1];
    } else {
      assert t[0] == x;
      assert Amp[0] == Lt[0] == Gt[0] == Quot[0] == Apos[0] == '&';
    }
    if x == '&' {
      assert StartsWith(t, Amp);
    } else if x == '<' {
      assert !StartsWith(t, Amp) && StartsWith(t, Lt);
    } else if x == '>' {
      assert !StartsWith(t, Amp) && !StartsWith(t, Lt) && StartsWith(t, Gt);
    } else if x == '"' {
      assert !StartsWith(t, Amp) && !StartsWith(t, Lt) && !StartsWith(t, Gt) && StartsWith(t, Quot);
    } else if x == '\'' {
      assert !StartsWith(t, Amp) && !StartsWith(t, Lt) && !StartsWith(t, Gt) && !StartsWith(t, Quot);
      assert StartsWith(t, Apos);
    } else {
      assert !StartsWith(t, Amp) && !StartsWith(t, Lt) && !StartsWith(t, Gt);
      assert !StartsWith(t, Quot) && !StartsWith(t, Apos);
    }
  }

  lemma {:induction false} UnescapeEscapeChars(s: string)
    ensures Unescape(EscapeChars(s)) == s
    decreases |s|
  {
    if |s| > 0 {
      UnescapeEscapeChar(s[0], EscapeChars(s[1..]));
      UnescapeEscapeChars(s[1..]);
      assert s == [s[0]] + s[1..];
    }
  }

  /** Escaping loses nothing: decoding the entities recovers the original name. */
  lemma EscapeHtmlRoundTrip(s: string)
    ensures Unescape(EscapeHtml(s)) == s
  {
    EscapeHtmlIsPerChar(s);
    UnescapeEscapeChars(s);
  }

  /** Distinct names are rendered as distinct text. */
  lemma EscapeHtmlInjective(s: string, t: string)
    ensures EscapeHtml(s) == EscapeHtml(t) ==> s == t
  {
    EscapeHtmlRoundTrip(s);
    EscapeHtmlRoundTrip(t);
  }

  /** The same five replacements with `&` moved to the end, the order the script avoids. */
  function EscapeAmpersandLast(s: string): string {
    var b := ReplaceAll(s, '<', Lt);
    var c := ReplaceAll(b, '>', Gt);
    var d := ReplaceAll(c, '"', Quot);
    var e := ReplaceAll(d, '\'', Apos);
    ReplaceAll(e, '&', Amp)
  }

  /** Moving `&` to the end turns `<` into `&amp;lt;` instead of `&lt;`. */
  lemma EscapeAmpersandLastOfLt()
    ensures EscapeAmpersandLast("<") == Amp + Lt[1..]
  {
    ReplaceAllSingle('<', '<', Lt);
    assert '>' !in Lt && '"' !in Lt && '\'' !in Lt;
    assert Lt == "&" + Lt[1..];
    ReplaceAllSingle('&', '&', Amp);
    ReplaceAllAppend("&", Lt[1..], '&', Amp);
    assert '&' !in Lt[1..];
  }

  /** Replacing `&` last escapes the entities it has just produced: `<` comes out as `&amp;lt;`, which decodes to `&lt;`, not `<`. */
  lemma AmpersandLastDoubleEscapes()
    ensures EscapeHtml("<") == Lt
    ensures EscapeAmpersandLast("<") == Amp + Lt[1..]
    ensures Unescape(EscapeAmpersandLast("<")) != "<"
  {
    EscapeHtmlOfChar('<');
    EscapeAmpersandLastOfLt();
    UnescapeEscapeChar('&', Lt[1..]);
  }

  /** The drop handler's test on a file name: lower-cased, it ends with `.ppt` or `.pptx`. */
  predicate KeptOnDrop(name: string) {
    EndsWith(Lower(name), ".ppt") || EndsWith(Lower(name), ".pptx")
  }

  /**
   The page's drop test and the server's extension test agree on any one string.
   The page applies it to the raw file name, the server to the sanitized one.
   */
  lemma DropFilterAgrees(name: string)
    ensures KeptOnDrop(name) <==> Items.Accepted(name)
  {
    assert Items.Extensions[1..] == [".pptx"];
    assert Items.Extensions[1..][1..] == [];
  }

  /** The dropped files the page adds to its list, in the order they were dropped. */
  function DroppedNames(names: seq<string>): (r: seq<string>)
    ensures forall x :: x in r <==> x in names && KeptOnDrop(x)
    ensures |r| <= |names|
    decreases |names|
  {
    if |names| == 0 then []
    else (if KeptOnDrop(names[0]) then [names[0]] else []) + DroppedNames(names[1..])
  }

  /** One dropped file is kept exactly when it passes the test. */
  lemma DroppedNamesOne(x: string)
    ensures DroppedNames([x]) == if KeptOnDrop(x) then [x] else []
  {
    assert [x][1..] == [];
  }

  /** Filtering two drops in turn is filtering them together: order and repeated names are kept. */
  lemma {:induction false} DroppedNamesAppend(a: seq<string>, b: seq<string>)
    ensures DroppedNames(a + b) == DroppedNames(a) + DroppedNames(b)
    decreases |a|
  {
    if |a| == 0 {
      assert a + b == b;
    } else {
      assert (a + b)[0] == a[0];
      assert (a + b)[1..] == a[1..] + b;
      DroppedNamesAppend(a[1..], b);
    }
  }

  /** When every dropped name passes the test, all of them are kept, duplicates included, in drop order. */
  lemma {:induction false} DroppedNamesKeepsAll(names: seq<string>)
    requires forall i :: 0 <= i < |names| ==> KeptOnDrop(names[i])
    ensures DroppedNames(names) == names
    decreases |names|
  {
    if |names| > 0 {
      DroppedNamesKeepsAll(names[1..]);
    }
  }
}
