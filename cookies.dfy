/** The `parseCookies` helper each serverless function carries: the
    `Cookie` request header split on `;`, each piece trimmed and split on
    `=`, and the visitor read from the `visitorId` entry. */
module Cookies {
  import opened Wrappers
  import opened Text

  type Cookies = map<string, string>

  /** `const [name, value] = cookie.trim().split('=')`, kept only when both
      are non-empty (`if (name && value)`); `EntryPrefix` states where the
      two come from. */
  function Entry(seg: string): (e: Option<(string, string)>)
    ensures e.Some? ==> e.value.0 != "" && e.value.1 != ""
    ensures e.Some? ==> '=' !in e.value.0 && '=' !in e.value.1
  {
    var parts := Split(Trim(seg), '=');
    var name := parts[0];
    var value := if |parts| > 1 then parts[1] else "";
    if name != "" && value != "" then Some((name, value)) else None
  }

  /** A kept entry is read from the start of the trimmed piece: the piece
      starts with `name=value`, and what follows, if anything, starts with
      a second `=` and is dropped with the later pieces of the
      destructuring. */
  lemma EntryPrefix(seg: string)
    requires Entry(seg).Some?
    ensures var t := Trim(seg); var e := Entry(seg).value; var n := |e.0| + 1 + |e.1|;
      && n <= |t|
      && t[..n] == e.0 + "=" + e.1
      && (n == |t| || t[n] == '=')
  {
    var t := Trim(seg);
    assert |Split(t, '=')| > 1;
    SplitSecond(t, '=');
  }

  /** Every recorded name and value is non-empty and free of `=`. */
  predicate WellFormed(cookies: Cookies) {
    forall n :: n in cookies ==> n != "" && cookies[n] != "" && '=' !in n && '=' !in cookies[n]
  }

  /** A parsed piece that `parseCookies` keeps. */
  predicate IsEntry(e: Option<(string, string)>) {
    e.Some? ==> e.value.0 != "" && e.value.1 != "" && '=' !in e.value.0 && '=' !in e.value.1
  }

  /** The entries of the pieces, in order. */
  function Entries(segs: seq<string>): (es: seq<Option<(string, string)>>)
    ensures |es| == |segs|
    ensures forall k :: 0 <= k < |es| ==> IsEntry(es[k])
  {
    seq(|segs|, k requires 0 <= k < |segs| => Entry(segs[k]))
  }

  /** The cookies a run of entries records, read left to right: a later
      entry with the same name overwrites an earlier one. */
  function Record(es: seq<Option<(string, string)>>): Cookies
    decreases |es|
  {
    if es == [] then map[]
    else
      var m := Record(es[..|es| - 1]);
      match es[|es| - 1]
      case None => m
      case Some(e) => m[e.0 := e.1]
  }

  /** The cookies of a header's pieces. */
  function CookiesOf(segs: seq<string>): (cookies: Cookies) {
    Record(Entries(segs))
  }

  /** Entries that are all well formed record a well-formed map. */
  lemma {:induction false} RecordWellFormed(es: seq<Option<(string, string)>>)
    requires forall k :: 0 <= k < |es| ==> IsEntry(es[k])
    ensures WellFormed(Record(es))
    decreases |es|
  {
    if es != [] {
      RecordWellFormed(es[..|es| - 1]);
    }
  }

  /** Parsed cookies never hold an empty name or value, nor an `=`. */
  lemma CookiesWellFormed(segs: seq<string>)
    ensures WellFormed(CookiesOf(segs))
  {
    RecordWellFormed(Entries(segs));
  }

  /** Reading one more entry records it, if there is one. */
  lemma RecordSnoc(es: seq<Option<(string, string)>>, e: Option<(string, string)>)
    ensures e.None? ==> Record(es + [e]) == Record(es)
    ensures e.Some? ==> Record(es + [e]) == Record(es)[e.value.0 := e.value.1]
  {
    assert (es + [e])[..|es|] == es;
  }

  /** The pieces of a header: none when there is no header at all. */
  function Pieces(header: Option<string>): seq<string> {
    if header.None? || header.value == "" then [] else Split(header.value, ';')
  }

  /** `parseCookies(event.headers.cookie)`. */
  method ParseCookies(header: Option<string>) returns (cookies: Cookies)
    ensures cookies == CookiesOf(Pieces(header))
  {
    cookies := map[];
    if header.Some? && header.value != "" {
      var segs := Split(header.value, ';');
      ghost var es := Entries(segs);
      var i := 0;
      while i < |segs|
        invariant 0 <= i <= |segs|
        invariant cookies == Record(es[..i])
      {
        var e := Entry(segs[i]);
        assert e == es[i];
        TakeOneMore(es, i);
        RecordSnoc(es[..i], e);
        if e.Some? {
          cookies := cookies[e.value.0 := e.value.1];
        }
        i := i + 1;
      }
      TakeAll(es);
    }
  }

  lemma TakeOneMore<T>(s: seq<T>, i: int)
    requires 0 <= i < |s|
    ensures s[..i + 1] == s[..i] + [s[i]]
  {
  }

  lemma TakeAll<T>(s: seq<T>)
    ensures s[..|s|] == s
  {
  }

  /** Every recorded cookie comes from an entry carrying that name and value. */
  lemma {:induction false} EntryOf(es: seq<Option<(string, string)>>, n: string) returns (k: int)
    requires n in Record(es)
    ensures 0 <= k < |es| && es[k] == Some((n, Record(es)[n]))
    decreases |es|
  {
    var init := es[..|es| - 1];
    var last := es[|es| - 1];
    assert es == init + [last];
    RecordSnoc(init, last);
    if last.Some? && last.value.0 == n {
      k := |es| - 1;
    } else {
      k := EntryOf(init, n);
      assert es[k] == init[k];
    }
  }

  /** An entry no later entry overrides gives the recorded value. */
  lemma {:induction false} LastEntryWins(es: seq<Option<(string, string)>>, k: int)
    requires 0 <= k < |es| && es[k].Some?
    requires forall j :: k < j < |es| ==> es[j].None? || es[j].value.0 != es[k].value.0
    ensures es[k].value.0 in Record(es) && Record(es)[es[k].value.0] == es[k].value.1
    decreases |es|
  {
    var init := es[..|es| - 1];
    var last := es[|es| - 1];
    assert es == init + [last];
    RecordSnoc(init, last);
    if k < |es| - 1 {
      assert init[k] == es[k];
      forall j | k < j < |init| ensures init[j].None? || init[j].value.0 != init[k].value.0 {
        assert init[j] == es[j];
      }
      LastEntryWins(init, k);
    }
  }

  /** Every entry leaves its name recorded. */
  lemma {:induction false} EntryRecorded(es: seq<Option<(string, string)>>, k: int)
    requires 0 <= k < |es| && es[k].Some?
    ensures es[k].value.0 in Record(es)
    decreases |es|
  {
    var init := es[..|es| - 1];
    var last := es[|es| - 1];
    assert es == init + [last];
    RecordSnoc(init, last);
    if k < |es| - 1 {
      assert init[k] == es[k];
      EntryRecorded(init, k);
    }
  }

  /** Every parsed name comes from some piece that carries it, with the
      value that piece carries. */
  lemma PieceOf(segs: seq<string>, n: string) returns (k: int)
    requires n in CookiesOf(segs)
    ensures 0 <= k < |segs| && Entry(segs[k]) == Some((n, CookiesOf(segs)[n]))
  {
    k := EntryOf(Entries(segs), n);
  }

  /** A piece whose name no later piece repeats gives that name its value. */
  lemma LastPieceWins(segs: seq<string>, k: int)
    requires 0 <= k < |segs| && Entry(segs[k]).Some?
    requires forall j :: k < j < |segs| ==> Entry(segs[j]).None? || Entry(segs[j]).value.0 != Entry(segs[k]).value.0
    ensures Entry(segs[k]).value.0 in CookiesOf(segs)
    ensures CookiesOf(segs)[Entry(segs[k]).value.0] == Entry(segs[k]).value.1
  {
    var es := Entries(segs);
    assert forall j :: k < j < |es| ==> es[j].None? || es[j].value.0 != es[k].value.0;
    LastEntryWins(es, k);
  }

  /** No header, or an empty one, carries no cookie. */
  lemma NoHeaderNoCookies(header: Option<string>)
    requires header.None? || header.value == ""
    ensures CookiesOf(Pieces(header)) == map[]
  {
  }

  /** A lone `name=value` piece parses to that name and value. */
  lemma {:induction false} EntryOfPair(name: string, value: string)
    requires name != "" && value != "" && '=' !in name && '=' !in value
    requires !IsSpace(name[0]) && !IsSpace(value[|value| - 1])
    ensures Entry(name + "=" + value) == Some((name, value))
  {
    var s := name + "=" + value;
    assert s[0] == name[0] && s[|s| - 1] == value[|value| - 1];
    TrimKeepsInner(s);
    SplitCons(name, '=', value);
    assert Split(value, '=') == [value];
  }

  /** A piece `name=value=rest` parses to that name and value: everything
      after a second `=` is dropped. */
  lemma {:induction false} EntryDropsRest(name: string, value: string, rest: string)
    requires name != "" && value != "" && '=' !in name && '=' !in value
    requires !IsSpace(name[0]) && (rest == "" || !IsSpace(rest[|rest| - 1]))
    ensures Entry(name + "=" + value + "=" + rest) == Some((name, value))
  {
    var s := name + "=" + value + "=" + rest;
    assert s[0] == name[0];
    assert s[|s| - 1] == if rest == "" then '=' else rest[|rest| - 1];
    TrimKeepsInner(s);
    SplitTwoParts(name, value, rest);
    EntryOfParts(s, name, value);
  }

  /** `name=value=rest` splits on `=` into `name`, `value` and the parts of
      `rest`. */
  lemma SplitTwoParts(name: string, value: string, rest: string)
    requires '=' !in name && '=' !in value
    ensures var parts := Split(name + "=" + value + "=" + rest, '=');
      |parts| > 1 && parts[0] == name && parts[1] == value
  {
    var x := value + "=" + rest;
    assert name + "=" + value + "=" + rest == name + "=" + x;
    SplitCons(name, '=', x);
    SplitCons(value, '=', rest);
  }

  /** A piece whose trimmed text splits into the given name and value
      first keeps exactly those. */
  lemma EntryOfParts(seg: string, name: string, value: string)
    requires name != "" && value != ""
    requires var parts := Split(Trim(seg), '='); |parts| > 1 && parts[0] == name && parts[1] == value
    ensures Entry(seg) == Some((name, value))
  {
  }

  lemma RecordOne(e: Option<(string, string)>)
    ensures e.Some? ==> Record([e]) == map[e.value.0 := e.value.1]
    ensures e.None? ==> Record([e]) == map[]
  {
    assert [e][..0] == [];
  }

  /** The cookie the server sets, `name=value`, comes back as exactly that
      entry when the browser returns it alone. */
  lemma SetCookieRoundTrip(name: string, value: string)
    requires name != "" && value != ""
    requires '=' !in name && '=' !in value && ';' !in name && ';' !in value
    requires !IsSpace(name[0]) && !IsSpace(value[|value| - 1])
    ensures CookiesOf(Pieces(Some(name + "=" + value))) == map[name := value]
  {
    var s := name + "=" + value;
    assert ';' !in s by {
      forall i | 0 <= i < |s| ensures s[i] != ';' {
        if i < |name| {
          assert s[i] == name[i];
        } else if i > |name| {
          assert s[i] == value[i - |name| - 1];
        }
      }
    }
    assert Pieces(Some(s)) == [s];
    EntryOfPair(name, value);
    assert Entries([s]) == [Entry(s)];
    RecordOne(Entry(s));
  }

  /** `cookies.visitorId`; a missing cookie reads as the empty string, which
      the handlers treat like a missing visitor. */
  function Visitor(cookies: Cookies): (v: string)
    requires WellFormed(cookies)
    ensures v != "" <==> "visitorId" in cookies
    ensures "visitorId" in cookies ==> v == cookies["visitorId"]
  {
    if "visitorId" in cookies then cookies["visitorId"] else ""
  }
}
