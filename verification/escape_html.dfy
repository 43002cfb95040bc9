/** escapeHtml of the renderer: five global replacements, `&` first, that
    turn the printable preview of a file's extra bytes into text safe to
    place in the status tooltip (renderer.js:221-222). Its
    partners are a per-character reference definition, the set of escaped
    strings, and an unescaper that inverts it. */
module EscapeHtml {

  const Amp: string := "&amp;"
  const Lt: string := "&lt;"
  const Gt: string := "&gt;"
  const Quot: string := "&quot;"
  const Apos: string := "&#039;"

  /** The characters escapeHtml rewrites. */
  predicate Special(c: char) {
    c == '&' || c == '<' || c == '>' || c == '"' || c == '\''
  }

  /** `s.replace(/c/g, rep)` for a one-character pattern: every occurrence
      of c is replaced, left to right, and the replacement is not rescanned. */
  function ReplaceAll(s: string, c: char, rep: string): (r: string)
    ensures c !in s ==> r == s
  {
    if |s| == 0 then ""
    else (if s[0] == c then rep else [s[0]]) + ReplaceAll(s[1..], c, rep)
  }

  /** A character that the replacement does not contain is absent from
      the result when it is the pattern itself or absent from the input. */
  lemma {:induction false} ReplaceAllOmits(s: string, c: char, rep: string, d: char)
    requires d !in rep && (d == c || d !in s)
    ensures d !in ReplaceAll(s, c, rep)
    decreases |s|
  {
    if |s| > 0 {
      assert d == c || d !in s[1..] by {
        if d != c {
          assert forall x :: x in s[1..] ==> x in s;
        }
      }
      ReplaceAllOmits(s[1..], c, rep, d);
    }
  }

  /** No entity holds the characters it or a later replacement removes. */
  lemma EntitiesOmitSpecials()
    ensures '<' !in Lt
    ensures '<' !in Gt && '>' !in Gt
    ensures '<' !in Quot && '>' !in Quot && '"' !in Quot
    ensures '<' !in Apos && '>' !in Apos && '"' !in Apos && '\'' !in Apos
  {
  }

  /** escapeHtml: the result holds no `<`, `>`, `"` or `'` at all. */
  function EscapeHtml(unsafe: string): (r: string)
    ensures '<' !in r && '>' !in r && '"' !in r && '\'' !in r
  {
    var s1 := ReplaceAll(unsafe, '&', Amp);
    var s2 := ReplaceAll(s1, '<', Lt);
    var s3 := ReplaceAll(s2, '>', Gt);
    var s4 := ReplaceAll(s3, '"', Quot);
    var r := ReplaceAll(s4, '\'', Apos);
    EntitiesOmitSpecials();
    ReplaceAllOmits(s1, '<', Lt, '<');
    ReplaceAllOmits(s2, '>', Gt, '<');
    ReplaceAllOmits(s2, '>', Gt, '>');
    ReplaceAllOmits(s3, '"', Quot, '<');
    ReplaceAllOmits(s3, '"', Quot, '>');
    ReplaceAllOmits(s3, '"', Quot, '"');
    ReplaceAllOmits(s4, '\'', Apos, '<');
    ReplaceAllOmits(s4, '\'', Apos, '>');
    ReplaceAllOmits(s4, '\'', Apos, '"');
    ReplaceAllOmits(s4, '\'', Apos, '\'');
    r
  }

  /** The entity escapeHtml writes for one character. */
  function EscapeChar(c: char): (e: string)
    ensures |e| >= 1 && (|e| == 1 <==> !Special(c))
  {
    match c
    case '&' => Amp
    case '<' => Lt
    case '>' => Gt
    case '"' => Quot
    case '\'' => Apos
    case _ => [c]
  }

  /** Reference definition: each character replaced by its entity. */
  function EscapeEach(s: string): string {
    if |s| == 0 then "" else EscapeChar(s[0]) + EscapeEach(s[1..])
  }

  lemma {:induction false} ReplaceAllAppend(a: string, b: string, c: char, rep: string)
    ensures ReplaceAll(a + b, c, rep) == ReplaceAll(a, c, rep) + ReplaceAll(b, c, rep)
    decreases |a|
  {
    if |a| > 0 {
      assert (a + b)[1..] == a[1..] + b;
      ReplaceAllAppend(a[1..], b, c, rep);
    } else {
      assert a + b == b;
    }
  }

  /** escapeHtml distributes over concatenation. */
  lemma EscapeHtmlAppend(a: string, b: string)
    ensures EscapeHtml(a + b) == EscapeHtml(a) + EscapeHtml(b)
  {
    var a1, b1 := ReplaceAll(a, '&', Amp), ReplaceAll(b, '&', Amp);
    ReplaceAllAppend(a, b, '&', Amp);
    var a2, b2 := ReplaceAll(a1, '<', Lt), ReplaceAll(b1, '<', Lt);
    ReplaceAllAppend(a1, b1, '<', Lt);
    var a3, b3 := ReplaceAll(a2, '>', Gt), ReplaceAll(b2, '>', Gt);
    ReplaceAllAppend(a2, b2, '>', Gt);
    var a4, b4 := ReplaceAll(a3, '"', Quot), ReplaceAll(b3, '"', Quot);
    ReplaceAllAppend(a3, b3, '"', Quot);
    ReplaceAllAppend(a4, b4, '\'', Apos);
  }

  lemma ReplaceOne(x: char, c: char, rep: string)
    ensures ReplaceAll([x], c, rep) == if x == c then rep else [x]
  {
    assert [x][1..] == [];
    if x == c {
      assert rep + [] == rep;
    }
  }

  /** On one character the chain of replacements writes its entity: `&`
      goes first, so the `&` of a later entity is never escaped again. */
  lemma EscapeHtmlOne(x: char)
    ensures EscapeHtml([x]) == EscapeChar(x)
  {
    ReplaceOne(x, '&', Amp);
    if x == '&' {
      assert '<' !in Amp && '>' !in Amp && '"' !in Amp && '\'' !in Amp;
    } else {
      ReplaceOne(x, '<', Lt);
      if x == '<' {
        assert '>' !in Lt && '"' !in Lt && '\'' !in Lt;
      } else {
        ReplaceOne(x, '>', Gt);
        if x == '>' {
          assert '"' !in Gt && '\'' !in Gt;
        } else {
          ReplaceOne(x, '"', Quot);
          if x == '"' {
            assert '\'' !in Quot;
          } else {
            ReplaceOne(x, '\'', Apos);
          }
        }
      }
    }
  }

  /** The chained replacements equal the per-character escaping. */
  lemma {:induction false} EscapeHtmlIsEscapeEach(s: string)
    ensures EscapeHtml(s) == EscapeEach(s)
    decreases |s|
  {
    if |s| == 0 {
      assert EscapeHtml(s) == "";
    } else {
      assert s == [s[0]] + s[1..];
      EscapeHtmlAppend([s[0]], s[1..]);
      EscapeHtmlOne(s[0]);
      EscapeHtmlIsEscapeEach(s[1..]);
    }
  }

  /** Strings escapeHtml can produce: every `&` opens one of the five
      entities and none of `<`, `>`, `"`, `'` occurs. */
  predicate IsEscaped(t: string)
    decreases |t|
  {
    if |t| == 0 then true
    else if t[0] != '&' then !Special(t[0]) && IsEscaped(t[1..])
    else if Amp <= t then IsEscaped(t[|Amp|..])
    else if Lt <= t then IsEscaped(t[|Lt|..])
    else if Gt <= t then IsEscaped(t[|Gt|..])
    else if Quot <= t then IsEscaped(t[|Quot|..])
    else if Apos <= t then IsEscaped(t[|Apos|..])
    else false
  }

  /** Reads every entity back as its character. */
  function Unescape(t: string): string
    decreases |t|
  {
    if |t| == 0 then ""
    else if t[0] != '&' then [t[0]] + Unescape(t[1..])
    else if Amp <= t then "&" + Unescape(t[|Amp|..])
    else if Lt <= t then "<" + Unescape(t[|Lt|..])
    else if Gt <= t then ">" + Unescape(t[|Gt|..])
    else if Quot <= t then "\"" + Unescape(t[|Quot|..])
    else if Apos <= t then "'" + Unescape(t[|Apos|..])
    else [t[0]] + Unescape(t[1..])
  }

  /** Unescape and IsEscaped both consume exactly one entity at the front. */
  lemma FrontEntity(x: char, t: string)
    ensures IsEscaped(EscapeChar(x) + t) <==> IsEscaped(t)
    ensures Unescape(EscapeChar(x) + t) == [x] + Unescape(t)
  {
    var u := EscapeChar(x) + t;
    assert u[|EscapeChar(x)|..] == t;
    if x == '&' {
      assert Amp <= u;
    } else if x == '<' {
      assert u[1] == 'l';
      assert Lt <= u;
    } else if x == '>' {
      assert u[1] == 'g';
      assert Gt <= u;
    } else if x == '"' {
      assert u[1] == 'q';
      assert Quot <= u;
    } else if x == '\'' {
      assert u[1] == '#';
      assert Apos <= u;
    } else {
      assert u[0] == x;
    }
  }

  lemma {:induction false} EscapeEachIsEscaped(s: string)
    ensures IsEscaped(EscapeEach(s))
    ensures Unescape(EscapeEach(s)) == s
    decreases |s|
  {
    if |s| == 0 {
    } else {
      EscapeEachIsEscaped(s[1..]);
      FrontEntity(s[0], EscapeEach(s[1..]));
      assert s == [s[0]] + s[1..];
    }
  }

  /** A non-empty escaped string starts with the escaping of one character,
      which Unescape reads back. */
  lemma EscapedFront(t: string) returns (x: char, n: nat)
    requires IsEscaped(t) && |t| > 0
    ensures 0 < n <= |t| && t[..n] == EscapeChar(x)
    ensures IsEscaped(t[n..]) && Unescape(t) == [x] + Unescape(t[n..])
  {
    if t[0] != '&' {
      x, n := t[0], 1;
    } else if Amp <= t {
      x, n := '&', |Amp|;
    } else if Lt <= t {
      x, n := '<', |Lt|;
    } else if Gt <= t {
      x, n := '>', |Gt|;
    } else if Quot <= t {
      x, n := '"', |Quot|;
    } else {
      x, n := '\'', |Apos|;
    }
  }

  /** Every escaped string is the escaping of its unescaping. */
  lemma {:induction false} EscapedIsEscapeEach(t: string)
    requires IsEscaped(t)
    ensures EscapeEach(Unescape(t)) == t
    decreases |t|
  {
    if |t| > 0 {
      var x, n := EscapedFront(t);
      EscapedIsEscapeEach(t[n..]);
      assert ([x] + Unescape(t[n..]))[1..] == Unescape(t[n..]);
      assert t == t[..n] + t[n..];
    }
  }

  /** escapeHtml loses nothing: unescaping its output gives the input back,
      so distinct previews are displayed as distinct markup. */
  lemma EscapeRoundTrip(s: string)
    ensures IsEscaped(EscapeHtml(s))
    ensures Unescape(EscapeHtml(s)) == s
  {
    EscapeHtmlIsEscapeEach(s);
    EscapeEachIsEscaped(s);
  }

  /** The other direction: escapeHtml maps onto the escaped strings, and
      escaping the unescaping of an escaped string gives it back. */
  lemma UnescapeRoundTrip(t: string)
    requires IsEscaped(t)
    ensures EscapeHtml(Unescape(t)) == t
  {
    EscapedIsEscapeEach(t);
    EscapeHtmlIsEscapeEach(Unescape(t));
  }

  lemma {:induction false} EscapeEachLength(s: string)
    ensures |EscapeEach(s)| >= |s|
    ensures |EscapeEach(s)| == |s| <==> forall i :: 0 <= i < |s| ==> !Special(s[i])
    ensures (forall i :: 0 <= i < |s| ==> !Special(s[i])) ==> EscapeEach(s) == s
    decreases |s|
  {
    if |s| > 0 {
      EscapeEachLength(s[1..]);
      assert forall i :: 0 < i < |s| ==> s[i] == s[1..][i - 1];
      assert s == [s[0]] + s[1..];
    }
  }

  /** Escaping never shortens a text; it keeps the length, and then the
      text itself, exactly when no character needs escaping. */
  lemma EscapeLength(s: string)
    ensures |EscapeHtml(s)| >= |s|
    ensures |EscapeHtml(s)| == |s| <==> forall i :: 0 <= i < |s| ==> !Special(s[i])
    ensures EscapeHtml(s) == s <==> forall i :: 0 <= i < |s| ==> !Special(s[i])
  {
    EscapeHtmlIsEscapeEach(s);
    EscapeEachLength(s);
  }

  /** A text with a character to escape leaves an `&` in the output. */
  lemma {:induction false} SpecialLeavesAmp(s: string)
    ensures (exists i :: 0 <= i < |s| && Special(s[i])) ==> '&' in EscapeEach(s)
    decreases |s|
  {
    if |s| > 0 {
      SpecialLeavesAmp(s[1..]);
      if Special(s[0]) {
        assert EscapeEach(s)[0] == EscapeChar(s[0])[0] == '&';
      } else if exists i :: 0 <= i < |s| && Special(s[i]) {
        var i :| 0 <= i < |s| && Special(s[i]);
        assert s[1..][i - 1] == s[i];
        assert forall x :: x in EscapeEach(s[1..]) ==> x in EscapeEach(s);
      }
    }
  }

  /** Escaping is idempotent only on texts with nothing to escape: an
      escaped `&` is escaped again, so an escaped text must not be passed
      through escapeHtml a second time. */
  lemma EscapeTwice(s: string)
    ensures EscapeHtml(EscapeHtml(s)) == EscapeHtml(s) <==> forall i :: 0 <= i < |s| ==> !Special(s[i])
  {
    var t := EscapeHtml(s);
    EscapeLength(s);
    EscapeLength(t);
    EscapeHtmlIsEscapeEach(s);
    SpecialLeavesAmp(s);
    if exists i :: 0 <= i < |s| && Special(s[i]) {
      var j :| 0 <= j < |t| && t[j] == '&';
      assert Special(t[j]);
    }
  }
}
