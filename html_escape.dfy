/**
 * Escaping of text content, as the HTML serialisation algorithm does for a text
 * node whose parent is an ordinary element ("escaping a string", WHATWG HTML Living
 * Standard, section 13.3 "Serializing HTML fragments", not in attribute mode):
 * `&` becomes `&amp;`, U+00A0 becomes `&nbsp;`, `<` becomes `&lt;` and `>` becomes
 * `&gt;`; every other character is kept.
 */
module HtmlEscape {
  import opened Strings

  const NoBreakSpace: char := '\U{00A0}'

  /** A character that text-node serialisation replaces by a character reference. */
  predicate Special(c: char) {
    c == '&' || c == NoBreakSpace || c == '<' || c == '>'
  }

  function EscapeChar(c: char): string {
    if c == '&' then "&amp;"
    else if c == NoBreakSpace then "&nbsp;"
    else if c == '<' then "&lt;"
    else if c == '>' then "&gt;"
    else [c]
  }

  /** The escaped form of `s`: what `innerHTML` reads after `textContent := s`. */
  function Escape(s: string): (r: string)
    ensures |r| >= |s|
    ensures forall i :: 0 <= i < |r| ==> r[i] != '<' && r[i] != '>' && r[i] != NoBreakSpace
  {
    if s == [] then [] else EscapeChar(s[0]) + Escape(s[1..])
  }

  /** One of the four character references that `Escape` writes starts at `t[i]`. */
  predicate ReferenceAt(t: string, i: nat)
    requires i <= |t|
  {
    var u := t[i..];
    StartsWith(u, "&amp;") || StartsWith(u, "&nbsp;") || StartsWith(u, "&lt;") || StartsWith(u, "&gt;")
  }

  /** No `&` of `t` stands alone: each begins a character reference. */
  predicate AmpersandsEscaped(t: string) {
    forall i :: 0 <= i < |t| && t[i] == '&' ==> ReferenceAt(t, i)
  }

  /** Decoding of the four character references `Escape` writes; other text is kept. */
  function Unescape(t: string): string
    decreases |t|
  {
    if t == [] then []
    else if StartsWith(t, "&amp;") then "&" + Unescape(t[5..])
    else if StartsWith(t, "&nbsp;") then [NoBreakSpace] + Unescape(t[6..])
    else if StartsWith(t, "&lt;") then "<" + Unescape(t[4..])
    else if StartsWith(t, "&gt;") then ">" + Unescape(t[4..])
    else [t[0]] + Unescape(t[1..])
  }

  lemma UnescapeEscapeChar(c: char, t: string)
    ensures Unescape(EscapeChar(c) + t) == [c] + Unescape(t)
  {
    var u := EscapeChar(c) + t;
    var e := EscapeChar(c);
    assert u[..|e|] == e;
    assert u[|e|..] == t;
    if !Special(c) {
      assert u[0] == c;
      assert !StartsWith(u, "&amp;") && !StartsWith(u, "&nbsp;") && !StartsWith(u, "&lt;") && !StartsWith(u, "&gt;");
    } else {
      // the references differ in their second character
      assert u[1] == e[1];
      assert StartsWith(u, "&amp;") ==> u[..5][1] == 'a';
      assert StartsWith(u, "&nbsp;") ==> u[..6][1] == 'n';
      assert StartsWith(u, "&lt;") ==> u[..4][1] == 'l';
    }
  }

  /** `Unescape` inverts `Escape`: escaping loses no text. */
  lemma {:induction false} UnescapeEscape(s: string)
    ensures Unescape(Escape(s)) == s
  {
    if s != [] {
      UnescapeEscapeChar(s[0], Escape(s[1..]));
      UnescapeEscape(s[1..]);
    }
  }

  /** Every `&` in escaped text begins a character reference. */
  lemma {:induction false} EscapeAmpersandsEscaped(s: string)
    ensures AmpersandsEscaped(Escape(s))
  {
    if s != [] {
      var e := EscapeChar(s[0]);
      var rest := Escape(s[1..]);
      var r := e + rest;
      EscapeAmpersandsEscaped(s[1..]);
      forall i | 0 <= i < |r| && r[i] == '&'
        ensures ReferenceAt(r, i)
      {
        if i < |e| {
          assert i == 0 && Special(s[0]);
          assert r[i..][..|e|] == e;
        } else {
          assert rest[i - |e|] == '&';
          assert ReferenceAt(rest, i - |e|);
          assert r[i..] == rest[i - |e|..];
        }
      }
    }
  }

  /** Escaping changes `s` exactly when `s` holds a special character. */
  lemma {:induction false} EscapeIdentity(s: string)
    ensures Escape(s) == s <==> forall i :: 0 <= i < |s| ==> !Special(s[i])
  {
    if s != [] {
      EscapeIdentity(s[1..]);
      if Special(s[0]) {
        assert |Escape(s)| > |s|;
      } else {
        assert Escape(s) == [s[0]] + Escape(s[1..]);
        assert s == [s[0]] + s[1..];
        if Escape(s[1..]) != s[1..] {
          assert Escape(s) != s;
          var i :| 0 <= i < |s[1..]| && Special(s[1..][i]);
          assert Special(s[i + 1]);
        } else {
          assert forall i :: 0 < i < |s| ==> s[i] == s[1..][i - 1];
        }
      }
    }
  }
}
