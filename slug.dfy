/** The id a suggested restaurant gets:
    `name.trim().toLowerCase().replace(/[^a-z0-9]+/g, '-')`. */
module Slugs {
  import opened Text

  /** The characters the regular expression's class `[a-z0-9]` keeps. */
  predicate IsIdChar(c: char) {
    'a' <= c <= 'z' || '0' <= c <= '9'
  }

  /** Only `[a-z0-9-]`, and never two hyphens in a row. */
  ghost predicate SlugShaped(s: string) {
    (forall i :: 0 <= i < |s| ==> IsIdChar(s[i]) || s[i] == '-')
    && (forall i, j :: 0 <= i < j < |s| && j == i + 1 ==> !(s[i] == '-' && s[j] == '-'))
  }

  /** The global replace of `[^a-z0-9]+` by `-`: each maximal run of other
      characters becomes one hyphen. `inRun` says that the character before
      `s` already belonged to such a run (and produced the hyphen). */
  function Squeeze(s: string, inRun: bool): string {
    if s == [] then []
    else if IsIdChar(s[0]) then [s[0]] + Squeeze(s[1..], false)
    else if inRun then Squeeze(s[1..], true)
    else "-" + Squeeze(s[1..], true)
  }

  /** What one leading character contributes to the replacement. */
  function Head(c: char, inRun: bool): string {
    if IsIdChar(c) then [c] else if inRun then [] else "-"
  }

  lemma SqueezeCons(c: char, s: string, inRun: bool)
    ensures Squeeze([c] + s, inRun) == Head(c, inRun) + Squeeze(s, !IsIdChar(c))
  {
    assert ([c] + s)[0] == c;
    assert ([c] + s)[1..] == s;
  }

  /** Two slug-shaped strings that do not meet on a pair of hyphens make a
      slug-shaped string. */
  lemma ShapedConcat(h: string, r: string)
    requires SlugShaped(h) && SlugShaped(r)
    requires h == [] || r == [] || h[|h| - 1] != '-' || r[0] != '-'
    ensures SlugShaped(h + r)
  {
    var s := h + r;
    forall i, j | 0 <= i < j < |s| && j == i + 1
      ensures !(s[i] == '-' && s[j] == '-')
    {
      if j < |h| {
        assert s[i] == h[i] && s[j] == h[j];
      } else if i >= |h| {
        assert s[i] == r[i - |h|] && s[j] == r[j - |h|];
      } else {
        assert s[i] == h[|h| - 1] && s[j] == r[0];
      }
    }
  }

  /** The replacement yields only `[a-z0-9-]` with no doubled hyphen, does not
      open with a hyphen when a run is already open, and turns a non-empty
      input outside a run into a non-empty output. */
  lemma {:induction false} SqueezeShaped(s: string, inRun: bool)
    ensures SlugShaped(Squeeze(s, inRun))
    ensures inRun ==> Squeeze(s, inRun) == [] || Squeeze(s, inRun)[0] != '-'
    ensures s != [] && !inRun ==> Squeeze(s, inRun) != []
    decreases |s|
  {
    if s != [] {
      var t := s[1..];
      SqueezeShaped(t, !IsIdChar(s[0]));
      var r := Squeeze(t, !IsIdChar(s[0]));
      var h := Head(s[0], inRun);
      assert s == [s[0]] + t;
      SqueezeCons(s[0], t, inRun);
      ShapedConcat(h, r);
    }
  }

  /** Whether a run of replaced characters is open after reading `s`. */
  function RunAfter(s: string, inRun: bool): bool {
    if s == [] then inRun else !IsIdChar(s[|s| - 1])
  }

  /** The replacement works piecewise: squeezing `a + b` squeezes `a`, then `b`
      with the run state `a` leaves. */
  lemma {:induction false} SqueezeAppend(a: string, b: string, inRun: bool)
    ensures Squeeze(a + b, inRun) == Squeeze(a, inRun) + Squeeze(b, RunAfter(a, inRun))
    decreases |a|
  {
    if a == [] {
      assert a + b == b;
    } else {
      var c, t := a[0], a[1..];
      assert a == [c] + t;
      assert a + b == [c] + (t + b);
      SqueezeCons(c, t + b, inRun);
      SqueezeCons(c, t, inRun);
      SqueezeAppend(t, b, !IsIdChar(c));
      assert RunAfter(t, !IsIdChar(c)) == RunAfter(a, inRun) by {
        if t != [] {
          assert t[|t| - 1] == a[|a| - 1];
        }
      }
    }
  }

  /** The id derived from a restaurant name: only `[a-z0-9-]`, no doubled
      hyphen, and never empty for a name that is not blank. */
  function Slug(name: string): (id: string)
    ensures SlugShaped(id)
    ensures !IsBlank(name) ==> id != []
  {
    SqueezeShaped(LowerAscii(Trim(name)), false);
    Squeeze(LowerAscii(Trim(name)), false)
  }

  /** The letters and digits of `s`, in order. */
  function IdChars(s: string): string {
    if s == [] then [] else (if IsIdChar(s[0]) then [s[0]] else []) + IdChars(s[1..])
  }

  /** The replacement removes no letter or digit and reorders none. */
  lemma {:induction false} SqueezeKeepsIdChars(s: string, inRun: bool)
    ensures IdChars(Squeeze(s, inRun)) == IdChars(s)
    decreases |s|
  {
    if s != [] {
      SqueezeKeepsIdChars(s[1..], !IsIdChar(s[0]));
      var r := Squeeze(s[1..], !IsIdChar(s[0]));
      if IsIdChar(s[0]) {
        assert ([s[0]] + r)[1..] == r;
      } else if !inRun {
        assert ("-" + r)[1..] == r;
      }
    }
  }

  /** Every letter and digit of the lower-cased, trimmed name survives in the id. */
  lemma SlugKeepsIdChars(name: string)
    ensures IdChars(Slug(name)) == IdChars(LowerAscii(Trim(name)))
  {
    SqueezeKeepsIdChars(LowerAscii(Trim(name)), false);
  }

  /** A string already in slug shape is left alone by the replacement. */
  lemma {:induction false} SqueezeOfSlugShape(s: string, inRun: bool)
    requires SlugShaped(s)
    requires inRun ==> s == [] || s[0] != '-'
    ensures Squeeze(s, inRun) == s
    decreases |s|
  {
    if s != [] {
      var t := s[1..];
      assert SlugShaped(t) by {
        forall i, j | 0 <= i && j == i + 1 && j < |t| ensures !(t[i] == '-' && t[j] == '-') {
          assert t[i] == s[i + 1] && t[j] == s[j + 1];
        }
      }
      assert !IsIdChar(s[0]) && t != [] ==> t[0] != '-' by {
        if !IsIdChar(s[0]) && t != [] {
          assert s[0] == '-' && t[0] == s[1];
        }
      }
      SqueezeOfSlugShape(t, !IsIdChar(s[0]));
      SqueezeCons(s[0], t, inRun);
      assert s == [s[0]] + t;
    }
  }

  /** Trimming and lower-casing leave a string of `[a-z0-9-]` alone. */
  lemma NormalizeSlugShape(s: string)
    requires SlugShaped(s)
    ensures LowerAscii(Trim(s)) == s
  {
    if s != [] {
      assert IsIdChar(s[0]) || s[0] == '-';
      assert IsIdChar(s[|s| - 1]) || s[|s| - 1] == '-';
      TrimKeepsInner(s);
    }
    assert forall i :: 0 <= i < |s| ==> LowerChar(s[i]) == s[i];
  }

  /** Deriving an id from an id changes nothing. */
  lemma SlugIdempotent(name: string)
    ensures Slug(Slug(name)) == Slug(name)
  {
    var id := Slug(name);
    NormalizeSlugShape(id);
    SqueezeOfSlugShape(id, false);
  }

  /** The handlers derive the id from the untrimmed name and store the trimmed
      name; both give the same id. */
  lemma SlugOfTrim(name: string)
    ensures Slug(Trim(name)) == Slug(name)
  {
    TrimIdempotent(name);
  }
}
