/** `escapeHtml`: replacing each of the six characters with a meaning in HTML
    markup by its character reference, using the table `htmlEntityMap`. */
module Html {

  import opened Results

  /** `htmlEntityMap`: the character reference for each character the
      pattern `/[&<>"'\/]/g` picks out. */
  const HtmlEntityMap: map<char, string> := map[
    '&' := "&amp;",
    '<' := "&lt;",
    '>' := "&gt;",
    '"' := "&quot;",
    '\'' := "&#39;",
    '/' := "&#x2F;"
  ]

  /** A character the replacement pattern matches. */
  predicate IsSpecial(c: char) {
    c == '&' || c == '<' || c == '>' || c == '"' || c == '\'' || c == '/'
  }

  /** Markup characters that never appear in escaped text (`&` does, as the
      start of each reference). */
  predicate IsMarkup(c: char) {
    IsSpecial(c) && c != '&'
  }

  /** What the replacement callback answers for one matched character, and
      what an unmatched character stays. */
  function EscapeChar(c: char): (r: string)
    ensures c in HtmlEntityMap <==> IsSpecial(c)
    ensures IsSpecial(c) ==> |r| >= 4 && r[0] == '&' && r[|r| - 1] == ';'
    ensures !IsSpecial(c) ==> r == [c]
    ensures forall i :: 0 <= i < |r| ==> !IsMarkup(r[i])
  {
    if c in HtmlEntityMap then HtmlEntityMap[c] else [c]
  }

  /** `String(string).replace(/[&<>"'\/]/g, c => htmlEntityMap[c])`: every
      match replaced, left to right, never rescanning what was inserted. */
  function EscapeHtml(s: string): (r: string)
    ensures |r| >= |s|
    decreases |s|
  {
    if s == [] then [] else EscapeChar(s[0]) + EscapeHtml(s[1..])
  }

  /** Escaping works character by character: it distributes over
      concatenation. */
  lemma {:induction false} EscapeConcat(a: string, b: string)
    ensures EscapeHtml(a + b) == EscapeHtml(a) + EscapeHtml(b)
    decreases |a|
  {
    if a != [] {
      assert (a + b)[0] == a[0];
      assert (a + b)[1..] == a[1..] + b;
      EscapeConcat(a[1..], b);
    } else {
      assert a + b == b;
    }
  }

  /** Text without any of the six characters comes back unchanged. */
  lemma {:induction false} EscapeUnchanged(s: string)
    requires forall i :: 0 <= i < |s| ==> !IsSpecial(s[i])
    ensures EscapeHtml(s) == s
    decreases |s|
  {
    if s != [] {
      assert !IsSpecial(s[0]);
      EscapeUnchanged(s[1..]);
    }
  }

  /** Escaped text holds none of `<`, `>`, `"`, `'` and `/`. */
  lemma {:induction false} EscapedHasNoMarkup(s: string)
    ensures forall i :: 0 <= i < |EscapeHtml(s)| ==> !IsMarkup(EscapeHtml(s)[i])
    decreases |s|
  {
    if s != [] {
      EscapedHasNoMarkup(s[1..]);
      var head, tail := EscapeChar(s[0]), EscapeHtml(s[1..]);
      forall i | 0 <= i < |head + tail|
        ensures !IsMarkup((head + tail)[i])
      {
        if i >= |head| {
          assert (head + tail)[i] == tail[i - |head|];
        }
      }
    }
  }

  /** Text holding a special character grows by at least three characters
      when escaped. */
  lemma {:induction false} EscapeLengthens(s: string)
    requires exists i :: 0 <= i < |s| && IsSpecial(s[i])
    ensures |EscapeHtml(s)| >= |s| + 3
    decreases |s|
  {
    if !IsSpecial(s[0]) {
      var i :| 0 <= i < |s| && IsSpecial(s[i]);
      assert s[1..][i - 1] == s[i];
      EscapeLengthens(s[1..]);
    }
  }

  /** The character a reference at the start of `s` stands for, if any. */
  function ReferenceAt(s: string): Option<char> {
    if s == [] || s[0] != '&' then None
    else if "&amp;" <= s then Some('&')
    else if "&lt;" <= s then Some('<')
    else if "&gt;" <= s then Some('>')
    else if "&quot;" <= s then Some('"')
    else if "&#39;" <= s then Some('\'')
    else if "&#x2F;" <= s then Some('/')
    else None
  }

  /** Decoding the six references back into characters, left to right. */
  function UnescapeHtml(s: string): string
    decreases |s|
  {
    if s == [] then []
    else
      var found := ReferenceAt(s);
      if found.Some? && |EscapeChar(found.value)| <= |s| then
        [found.value] + UnescapeHtml(s[|EscapeChar(found.value)|..])
      else [s[0]] + UnescapeHtml(s[1..])
  }

  /** A reference followed by anything is recognised as its own character. */
  lemma ReferenceAtEscape(c: char, t: string)
    requires IsSpecial(c)
    ensures ReferenceAt(EscapeChar(c) + t) == Some(c)
  {
    var s := EscapeChar(c) + t;
    assert s[..|EscapeChar(c)|] == EscapeChar(c);
    assert s[1] == EscapeChar(c)[1];
    if |EscapeChar(c)| >= 3 {
      assert s[2] == EscapeChar(c)[2];
    }
  }

  /** Text that does not start with `&` starts with no reference. */
  lemma NoReferenceWithoutAmpersand(s: string)
    requires s == [] || s[0] != '&'
    ensures ReferenceAt(s) == None
  {
  }

  /** Decoding the escape of one character and a rest gives the character
      back, then decodes the rest. */
  lemma UnescapeStep(c: char, t: string)
    ensures UnescapeHtml(EscapeChar(c) + t) == [c] + UnescapeHtml(t)
  {
    var head := EscapeChar(c);
    assert (head + t)[|head|..] == t;
    if IsSpecial(c) {
      ReferenceAtEscape(c, t);
    } else {
      assert head + t == [c] + t;
      NoReferenceWithoutAmpersand([c] + t);
    }
  }

  /** Decoding undoes escaping. */
  lemma {:induction false} UnescapeEscape(s: string)
    ensures UnescapeHtml(EscapeHtml(s)) == s
    decreases |s|
  {
    if s != [] {
      var rest := EscapeHtml(s[1..]);
      UnescapeEscape(s[1..]);
      UnescapeStep(s[0], rest);
      assert EscapeHtml(s) == EscapeChar(s[0]) + rest;
      assert s == [s[0]] + s[1..];
    }
  }

  /** `escapeHtml("<b>")` is `"&lt;b&gt;"`. */
  lemma EscapesTag()
    ensures EscapeHtml("<b>") == "&lt;b&gt;"
  {
  }

  /** What JavaScript throws when a name resolves to no variable. */
  datatype ReferenceError = StringIsNotDefined

  /** `escapeHtml` as the source declares it: without a parameter, so that
      `string` is whatever global variable of that name exists, and a
      ReferenceError when none does. The argument is never read. */
  function EscapeHtmlAsWritten(argument: string, globalString: Option<string>): (r: Result<string, ReferenceError>)
    ensures r.Ok? ==> globalString.Some? && UnescapeHtml(r.value) == globalString.value
  {
    match globalString
    case None => Err(StringIsNotDefined)
    case Some(g) => UnescapeEscape(g); Ok(EscapeHtml(g))
  }

  /** The declared function escapes nothing it is given: without a global
      `string` it throws, and with one it answers the same for every
      argument. */
  lemma AsWrittenIgnoresArgument(a: string, b: string, globalString: Option<string>)
    ensures EscapeHtmlAsWritten(a, globalString) == EscapeHtmlAsWritten(b, globalString)
  {
  }

  /** `escapeHtml("<b>")` throws where `"&lt;b&gt;"` is meant, and with a
      global `string` of `""` it answers `""`. */
  lemma AsWrittenMissesTag()
    ensures EscapeHtmlAsWritten("<b>", None).Err?
    ensures EscapeHtmlAsWritten("<b>", Some("")) == Ok("")
    ensures EscapeHtml("<b>") == "&lt;b&gt;"
  {
  }
}
