/** The pure helpers of the browser script: the HTML escaping applied to
    every name, cuisine and note before it is put into the page, the
    reading of the `visitorId` cookie, and the rule that turns a click on a
    vote button into the vote type sent to the server. */
module Client {
  import opened Wrappers
  import opened Text
  import opened Cookies
  import opened Model
  import opened Operations
  import opened Projection

  // ------------------------------------------------------------- escaping

  /** `s.replace(/c/g, rep)` for a one-character pattern. */
  function ReplaceAll(s: string, c: char, rep: string): string
    decreases |s|
  {
    if s == [] then [] else (if s[0] == c then rep else [s[0]]) + ReplaceAll(s[1..], c, rep)
  }

  lemma {:induction false} ReplaceAllAppend(a: string, b: string, c: char, rep: string)
    ensures ReplaceAll(a + b, c, rep) == ReplaceAll(a, c, rep) + ReplaceAll(b, c, rep)
    decreases |a|
  {
    if a == [] {
      assert a + b == b;
    } else {
      assert (a + b)[0] == a[0];
      assert (a + b)[1..] == a[1..] + b;
      ReplaceAllAppend(a[1..], b, c, rep);
    }
  }

  lemma {:induction false} ReplaceAllAbsent(s: string, c: char, rep: string)
    requires c !in s
    ensures ReplaceAll(s, c, rep) == s
    decreases |s|
  {
    if s != [] {
      ReplaceAllAbsent(s[1..], c, rep);
    }
  }

  /** The five chained global replacements, `&` first. */
  function ReplaceChain(t: string): string {
    ReplaceAll(ReplaceAll(ReplaceAll(ReplaceAll(ReplaceAll(t, '&', "&amp;"), '<', "&lt;"), '>', "&gt;"), '"', "&quot;"), '\'', "&#039;")
  }

  /** `escapeHtml(text)`: a missing or empty text gives the empty string. */
  function EscapeHtml(text: Option<string>): string {
    if text.None? || text.value == "" then "" else ReplaceChain(text.value)
  }

  /** What a single character becomes. */
  function EscapeChar(c: char): string {
    if c == '&' then "&amp;"
    else if c == '<' then "&lt;"
    else if c == '>' then "&gt;"
    else if c == '"' then "&quot;"
    else if c == '\'' then "&#039;"
    else [c]
  }

  /** The characters that would open a tag or close an attribute value. */
  predicate IsMarkup(c: char) {
    c == '<' || c == '>' || c == '"' || c == '\''
  }

  /** Each character escaped on its own: no markup character survives. */
  function Escaped(t: string): (r: string)
    ensures forall i :: 0 <= i < |r| ==> !IsMarkup(r[i])
    decreases |t|
  {
    if t == [] then [] else EscapeChar(t[0]) + Escaped(t[1..])
  }

  lemma ChainAppend(a: string, b: string)
    ensures ReplaceChain(a + b) == ReplaceChain(a) + ReplaceChain(b)
  {
    var a1, b1 := ReplaceAll(a, '&', "&amp;"), ReplaceAll(b, '&', "&amp;");
    ReplaceAllAppend(a, b, '&', "&amp;");
    var a2, b2 := ReplaceAll(a1, '<', "&lt;"), ReplaceAll(b1, '<', "&lt;");
    ReplaceAllAppend(a1, b1, '<', "&lt;");
    var a3, b3 := ReplaceAll(a2, '>', "&gt;"), ReplaceAll(b2, '>', "&gt;");
    ReplaceAllAppend(a2, b2, '>', "&gt;");
    var a4, b4 := ReplaceAll(a3, '"', "&quot;"), ReplaceAll(b3, '"', "&quot;");
    ReplaceAllAppend(a3, b3, '"', "&quot;");
    ReplaceAllAppend(a4, b4, '\'', "&#039;");
  }

  /** The replacements after the one that produced `e` leave it alone. */
  lemma TailFromLt(e: string)
    requires '<' !in e && '>' !in e && '"' !in e && '\'' !in e
    ensures ReplaceAll(ReplaceAll(ReplaceAll(ReplaceAll(e, '<', "&lt;"), '>', "&gt;"), '"', "&quot;"), '\'', "&#039;") == e
  {
    ReplaceAllAbsent(e, '<', "&lt;");
    TailFromGt(e);
  }

  lemma TailFromGt(e: string)
    requires '>' !in e && '"' !in e && '\'' !in e
    ensures ReplaceAll(ReplaceAll(ReplaceAll(e, '>', "&gt;"), '"', "&quot;"), '\'', "&#039;") == e
  {
    ReplaceAllAbsent(e, '>', "&gt;");
    TailFromQuot(e);
  }

  lemma TailFromQuot(e: string)
    requires '"' !in e && '\'' !in e
    ensures ReplaceAll(ReplaceAll(e, '"', "&quot;"), '\'', "&#039;") == e
  {
    ReplaceAllAbsent(e, '"', "&quot;");
    ReplaceAllAbsent(e, '\'', "&#039;");
  }

  lemma ReplaceOne(c: char, rep: string)
    ensures ReplaceAll([c], c, rep) == rep
  {
  }

  /** What the chain makes of each character it replaces. */
  lemma ChainAmp(c: char)
    requires c == '&'
    ensures ReplaceChain([c]) == "&amp;"
  {
    ReplaceOne(c, "&amp;");
    TailFromLt("&amp;");
  }

  lemma ChainLt(c: char)
    requires c == '<'
    ensures ReplaceChain([c]) == "&lt;"
  {
    ReplaceAllAbsent([c], '&', "&amp;");
    ReplaceOne(c, "&lt;");
    TailFromGt("&lt;");
  }

  lemma ChainGt(c: char)
    requires c == '>'
    ensures ReplaceChain([c]) == "&gt;"
  {
    ReplaceAllAbsent([c], '&', "&amp;");
    ReplaceAllAbsent([c], '<', "&lt;");
    ReplaceOne(c, "&gt;");
    TailFromQuot("&gt;");
  }

  lemma ChainQuot(c: char)
    requires c == '"'
    ensures ReplaceChain([c]) == "&quot;"
  {
    ReplaceAllAbsent([c], '&', "&amp;");
    ReplaceAllAbsent([c], '<', "&lt;");
    ReplaceAllAbsent([c], '>', "&gt;");
    ReplaceOne(c, "&quot;");
    ReplaceAllAbsent("&quot;", '\'', "&#039;");
  }

  lemma ChainApos(c: char)
    requires c == '\''
    ensures ReplaceChain([c]) == "&#039;"
  {
    ReplaceAllAbsent([c], '&', "&amp;");
    ReplaceAllAbsent([c], '<', "&lt;");
    ReplaceAllAbsent([c], '>', "&gt;");
    ReplaceAllAbsent([c], '"', "&quot;");
    ReplaceOne(c, "&#039;");
  }

  /** A character the chain does not replace. */
  lemma ChainPlain(c: char)
    requires c != '&' && !IsMarkup(c)
    ensures ReplaceChain([c]) == [c]
  {
    ReplaceAllAbsent([c], '&', "&amp;");
    TailFromLt([c]);
  }

  /** The chain treats one character as `EscapeChar` does: no replacement
      touches what an earlier one produced. */
  lemma ChainChar(c: char)
    ensures ReplaceChain([c]) == EscapeChar(c)
  {
    if c == '&' {
      ChainAmp(c);
    } else if c == '<' {
      ChainLt(c);
    } else if c == '>' {
      ChainGt(c);
    } else if c == '"' {
      ChainQuot(c);
    } else if c == '\'' {
      ChainApos(c);
    } else {
      ChainPlain(c);
    }
  }

  /** The chain of replacements escapes every character on its own. */
  lemma {:induction false} ChainIsEscaped(t: string)
    ensures ReplaceChain(t) == Escaped(t)
    decreases |t|
  {
    if t != [] {
      assert t == [t[0]] + t[1..];
      ChainAppend([t[0]], t[1..]);
      ChainChar(t[0]);
      ChainIsEscaped(t[1..]);
    }
  }

  /** The browser's decoding of the five character references the escaping
      produces; every other character stands for itself. */
  function Unescape(s: string): string
    decreases |s|
  {
    if s == [] then []
    else if |s| >= 5 && s[..5] == "&amp;" then "&" + Unescape(s[5..])
    else if |s| >= 4 && s[..4] == "&lt;" then "<" + Unescape(s[4..])
    else if |s| >= 4 && s[..4] == "&gt;" then ">" + Unescape(s[4..])
    else if |s| >= 6 && s[..6] == "&quot;" then "\"" + Unescape(s[6..])
    else if |s| >= 6 && s[..6] == "&#039;" then "'" + Unescape(s[6..])
    else [s[0]] + Unescape(s[1..])
  }

  /** A character other than `&` starts no character reference. */
  lemma UnescapePlain(c: char, rest: string)
    requires c != '&'
    ensures Unescape([c] + rest) == [c] + Unescape(rest)
  {
    var s := [c] + rest;
    assert s[0] == c && s[1..] == rest;
    assert |s| >= 4 ==> s[..4][0] == c;
    assert |s| >= 5 ==> s[..5][0] == c;
    assert |s| >= 6 ==> s[..6][0] == c;
  }

  /** Decoding one of the five character references the escaping produces
      gives back its character. */
  lemma UnescapeEntity(c: char, rest: string)
    requires c == '&' || c == '<' || c == '>' || c == '"' || c == '\''
    ensures Unescape(EscapeChar(c) + rest) == [c] + Unescape(rest)
  {
    var s := EscapeChar(c) + rest;
    if c == '&' {
      assert s[..5] == "&amp;" && s[5..] == rest;
    } else if c == '<' {
      assert s[1] == 'l';
      assert s[..4] == "&lt;" && s[4..] == rest;
    } else if c == '>' {
      assert s[1] == 'g' && s[2] == 't';
      assert s[..4] == "&gt;" && s[4..] == rest;
    } else if c == '"' {
      assert s[1] == 'q';
      assert s[..6] == "&quot;" && s[6..] == rest;
    } else {
      assert s[1] == '#';
      assert s[..6] == "&#039;" && s[6..] == rest;
    }
  }

  /** Decoding an escaped character gives the character back. */
  lemma UnescapeCons(c: char, rest: string)
    ensures Unescape(EscapeChar(c) + rest) == [c] + Unescape(rest)
  {
    if c == '&' || c == '<' || c == '>' || c == '"' || c == '\'' {
      UnescapeEntity(c, rest);
    } else {
      UnescapePlain(c, rest);
    }
  }

  /** Decoding undoes the escaping. */
  lemma {:induction false} UnescapeEscaped(t: string)
    ensures Unescape(Escaped(t)) == t
    decreases |t|
  {
    if t != [] {
      UnescapeCons(t[0], Escaped(t[1..]));
      UnescapeEscaped(t[1..]);
      assert t == [t[0]] + t[1..];
    }
  }

  /** What the page shows is the text itself, and it holds no character
      that could open a tag or end an attribute value. */
  lemma EscapeHtmlRoundTrip(t: string)
    ensures Unescape(EscapeHtml(Some(t))) == t
    ensures forall i :: 0 <= i < |EscapeHtml(Some(t))| ==> !IsMarkup(EscapeHtml(Some(t))[i])
  {
    ChainIsEscaped(t);
    UnescapeEscaped(t);
  }

  /** A text with no character to escape is put in the page unchanged. */
  lemma {:induction false} EscapePlain(t: string)
    requires forall i :: 0 <= i < |t| ==> !IsMarkup(t[i]) && t[i] != '&'
    ensures EscapeHtml(Some(t)) == t
  {
    ChainIsEscaped(t);
    EscapedPlain(t);
  }

  lemma {:induction false} EscapedPlain(t: string)
    requires forall i :: 0 <= i < |t| ==> !IsMarkup(t[i]) && t[i] != '&'
    ensures Escaped(t) == t
    decreases |t|
  {
    if t != [] {
      EscapedPlain(t[1..]);
      assert t == [t[0]] + t[1..];
    }
  }

  // --------------------------------------------------------------- cookie

  /** `getCookie(name)` on `document.cookie`: split `'; ' + cookie` on
      `'; ' + name + '='` and read the value only when that gives exactly two
      parts. A value read is the text after a marker, up to the next `;`. */
  function GetCookie(cookie: string, name: string): (r: Option<string>)
    ensures r.Some? ==> ';' !in r.value
    ensures r.Some? ==> exists i ::
      && OccursAt("; " + cookie, "; " + name + "=", i)
      && r.value == Split(("; " + cookie)[i + |"; " + name + "="|..], ';')[0]
  {
    var c := "; " + cookie;
    var m := "; " + name + "=";
    var parts := SplitOn(c, m, 0);
    if |parts| == 2 then
      SplitOnTwo(c, m);
      Some(Split(parts[1], ';')[0])
    else
      None
  }

  /** The marker exactly once: the value after it, up to the next `;`. */
  lemma GetCookieOnce(cookie: string, name: string, i: int)
    requires OccursAt("; " + cookie, "; " + name + "=", i)
    requires forall j :: OccursAt("; " + cookie, "; " + name + "=", j) ==> j == i
    ensures GetCookie(cookie, name) == Some(Split(("; " + cookie)[i + |"; " + name + "="|..], ';')[0])
  {
    SplitOnUnique("; " + cookie, "; " + name + "=", i);
  }

  /** No marker: no cookie. */
  lemma GetCookieMissing(cookie: string, name: string)
    requires forall j :: !OccursAt("; " + cookie, "; " + name + "=", j)
    ensures GetCookie(cookie, name).None?
  {
  }

  /** The marker twice: the parts are more than two and the cookie is not read. */
  lemma GetCookieDuplicate(cookie: string, name: string, i: int, j: int)
    requires OccursAt("; " + cookie, "; " + name + "=", i)
    requires OccursAt("; " + cookie, "; " + name + "=", j)
    requires i + |"; " + name + "="| <= j
    ensures GetCookie(cookie, name).None?
  {
    SplitOnTwice("; " + cookie, "; " + name + "=", i, j);
  }

  /** A cookie string holding just `name=value` reads back `value`. */
  lemma GetCookieAlone(name: string, value: string)
    requires ';' !in value
    ensures GetCookie(name + "=" + value, name) == Some(value)
  {
    var sep := "; " + name + "=";
    var s := "; " + (name + "=" + value);
    assert s == sep + value;
    assert s[0..|sep|] == sep;
    assert FindFrom(s, sep, 0) == Some(0);
    assert s[|sep|..] == value;
    assert sep[0] == ';';
    assert FindFrom(s, sep, |sep|).None?;
    assert SplitOn(s, sep, 0) == [s[..0], value];
    assert Split(value, ';') == [value];
  }

  /** A cookie the server sets is read back the same way in the browser and
      in the serverless functions. */
  lemma CookieReadsAgree(name: string, v: string)
    requires name != "" && '=' !in name && ';' !in name && !IsSpace(name[0])
    requires v != "" && '=' !in v && ';' !in v && !IsSpace(v[|v| - 1])
    ensures GetCookie(name + "=" + v, name) == Some(v)
    ensures CookiesOf(Pieces(Some(name + "=" + v))) == map[name := v]
  {
    GetCookieAlone(name, v);
    SetCookieRoundTrip(name, v);
  }

  // ---------------------------------------------------------------- toggle

  function VoteName(v: Vote): string {
    if v == Up then "up" else "down"
  }

  /** The vote type sent when a vote button is clicked: `'none'` when the
      clicked vote is the current one, the clicked vote otherwise. */
  function NextVoteType(current: Option<Vote>, clicked: Vote): (t: string)
    ensures ParseVoteType(t).Some?
    ensures Chosen(ParseVoteType(t).value) == (if current == Some(clicked) then None else Some(clicked))
  {
    if current == Some(clicked) then "none" else VoteName(clicked)
  }

  /** Clicking a button the server accepts leaves the visitor's vote
      withdrawn when it was the clicked one, and the clicked one otherwise. */
  lemma ToggleApplied(d: Document, v: string, rid: string, clicked: Vote)
    requires v != "" && HasId(d.restaurants, rid)
    ensures var r := CastVote(d, v, rid, NextVoteType(UserVote(d, v, rid), clicked));
      r.Ok? && At(r.value.votes, v, rid) == (if At(d.votes, v, rid) == Some(clicked) then None else Some(clicked))
  {
  }

  /** Clicking the same button twice returns to where it started, when the
      visitor had no vote or had that vote. */
  lemma ToggleTwice(current: Option<Vote>, clicked: Vote)
    requires current.None? || current == Some(clicked)
    ensures Chosen(ParseVoteType(NextVoteType(Chosen(ParseVoteType(NextVoteType(current, clicked)).value), clicked)).value) == current
  {
  }
}
