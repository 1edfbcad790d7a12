/** A simplified ASCII model of ActiveSupport's `parameterize('_')` and of
    the alias normaliser `parameterize('_').downcase` built on it.

    The shape follows the library: every run of characters outside
    `[A-Za-z0-9_-]` becomes one `_`, runs of `_` are squeezed to one, a
    leading and a trailing `_` are removed, and the result is downcased.
    Transliteration of non-ASCII letters is not modelled: such characters
    count as separators here. */
module Slug {
  import opened Text

  const Sep: char := '_'

  /** Characters `parameterize` keeps: `[a-z0-9\-_]`, case-insensitively. */
  predicate IsWordChar(c: char) {
    IsUpper(c) || IsLower(c) || IsDigit(c) || c == '-' || c == Sep
  }

  predicate AllWordChars(s: string) {
    forall i :: 0 <= i < |s| ==> IsWordChar(s[i])
  }

  /** No two separators side by side. */
  predicate NoDoubleSep(s: string) {
    forall i :: 0 <= i < |s| - 1 && s[i] == Sep ==> s[i + 1] != Sep
  }

  /** No separator at either end. */
  predicate NoEdgeSep(s: string) {
    |s| > 0 ==> s[0] != Sep && s[|s| - 1] != Sep
  }

  /** The shape of every normalised alias: lower-case word characters,
      single separators, none at the ends. */
  predicate IsSlug(s: string) {
    && AllWordChars(s)
    && (forall i :: 0 <= i < |s| ==> !IsUpper(s[i]))
    && NoDoubleSep(s)
    && NoEdgeSep(s)
  }

  /** The string with every separator dropped. */
  function Unsep(s: string): string {
    if s == [] then [] else (if s[0] == Sep then [] else [s[0]]) + Unsep(s[1..])
  }

  lemma {:induction false} UnsepAppend(a: string, b: string)
    ensures Unsep(a + b) == Unsep(a) + Unsep(b)
    decreases |a|
  {
    if a == [] {
      assert a + b == b;
    } else {
      assert (a + b)[1..] == a[1..] + b;
      UnsepAppend(a[1..], b);
    }
  }

  /** The word characters of `s` other than the separator, in order. */
  function Kept(s: string): string {
    if s == [] then [] else (if IsWordChar(s[0]) && s[0] != Sep then [s[0]] else []) + Kept(s[1..])
  }

  /** Every character outside the word set becomes a separator. */
  function ReplaceDisallowed(s: string): (r: string)
    ensures |r| == |s|
    ensures forall i :: 0 <= i < |s| ==> r[i] == (if IsWordChar(s[i]) then s[i] else Sep)
    ensures AllWordChars(r)
  {
    if s == [] then [] else [if IsWordChar(s[0]) then s[0] else Sep] + ReplaceDisallowed(s[1..])
  }

  /** Runs of separators collapse to a single one. */
  function Squeeze(s: string): (r: string)
    ensures |s| == 0 <==> |r| == 0
    ensures |s| > 0 ==> r[0] == s[0]
    ensures forall i :: 0 <= i < |r| ==> r[i] in s
    ensures NoDoubleSep(r)
    ensures NoDoubleSep(s) ==> r == s
    ensures Unsep(r) == Unsep(s)
    decreases |s|
  {
    if |s| <= 1 then s
    else if s[0] == Sep && s[1] == Sep then Squeeze(s[1..])
    else
      var r := [s[0]] + Squeeze(s[1..]);
      assert r[1..] == Squeeze(s[1..]);
      r
  }

  /** A run of separators leaves exactly one: removing one separator of a
      pair does not change the result. With `NoDoubleSep(s) ==> r == s`
      this pins the squeezed string down completely. */
  lemma {:induction false} SqueezeDoubleSep(a: string, b: string)
    ensures Squeeze(a + [Sep, Sep] + b) == Squeeze(a + [Sep] + b)
    decreases |a|
  {
    var x, y := a + [Sep, Sep] + b, a + [Sep] + b;
    if a == [] {
      assert x[1..] == y;
    } else {
      assert x[1..] == a[1..] + [Sep, Sep] + b;
      assert y[1..] == a[1..] + [Sep] + b;
      assert x[0] == y[0] && x[1] == y[1];
      SqueezeDoubleSep(a[1..], b);
    }
  }

  /** Removes one separator from the front and one from the back. */
  function StripSep(s: string): (r: string)
    ensures |r| <= |s|
    ensures forall i :: 0 <= i < |r| ==> r[i] in s
    ensures NoDoubleSep(s) ==> NoDoubleSep(r) && NoEdgeSep(r)
    ensures NoEdgeSep(s) ==> r == s
  {
    var a := if |s| > 0 && s[0] == Sep then s[1..] else s;
    if |a| > 0 && a[|a| - 1] == Sep then a[..|a| - 1] else a
  }

  /** `parameterize('_')` on ASCII input. */
  function Parameterize(s: string): string {
    Downcase(StripSep(Squeeze(ReplaceDisallowed(s))))
  }

  /** The alias normaliser of the field descriptor: `parameterize('_').downcase`. */
  function Normalize(s: string): string {
    Downcase(Parameterize(s))
  }

  lemma {:induction false} UnsepReplace(s: string)
    ensures Unsep(ReplaceDisallowed(s)) == Kept(s)
    decreases |s|
  {
    if s != [] {
      var r := ReplaceDisallowed(s);
      assert r[1..] == ReplaceDisallowed(s[1..]);
      UnsepReplace(s[1..]);
    }
  }

  lemma UnsepStrip(s: string)
    ensures Unsep(StripSep(s)) == Unsep(s)
  {
    var a := if |s| > 0 && s[0] == Sep then s[1..] else s;
    assert Unsep(a) == Unsep(s);
    if |a| > 0 && a[|a| - 1] == Sep {
      var last := a[|a| - 1..];
      assert a == a[..|a| - 1] + last;
      UnsepAppend(a[..|a| - 1], last);
      assert Unsep(last) == [];
    }
  }

  lemma {:induction false} UnsepDowncase(s: string)
    ensures Unsep(Downcase(s)) == Downcase(Unsep(s))
    decreases |s|
  {
    if s != [] {
      var d := Downcase(s);
      assert d[1..] == Downcase(s[1..]);
      UnsepDowncase(s[1..]);
      var u := if s[0] == Sep then [] else [s[0]];
      assert Unsep(s) == u + Unsep(s[1..]);
      assert Downcase(u + Unsep(s[1..])) == Downcase(u) + Downcase(Unsep(s[1..])) by {
        DowncaseAppend(u, Unsep(s[1..]));
      }
    }
  }

  lemma DowncaseAppend(a: string, b: string)
    ensures Downcase(a + b) == Downcase(a) + Downcase(b)
  {
    var l, r := Downcase(a + b), Downcase(a) + Downcase(b);
    assert forall i :: 0 <= i < |l| ==> l[i] == r[i];
  }

  /** Apart from separators, the normaliser keeps exactly the letters,
      digits and dashes of its input, in order, downcased. */
  lemma NormalizeKeepsWordChars(s: string)
    ensures Unsep(Normalize(s)) == Downcase(Kept(s))
  {
    var a := ReplaceDisallowed(s);
    var c := StripSep(Squeeze(a));
    UnsepReplace(s);
    UnsepStrip(Squeeze(a));
    UnsepDowncase(c);
    UnsepDowncase(Downcase(c));
    DowncaseNoUpper(Downcase(Kept(s)));
  }

  /** Downcasing keeps word characters, separators and their positions. */
  lemma DowncaseKeepsShape(s: string)
    requires AllWordChars(s) && NoDoubleSep(s) && NoEdgeSep(s)
    ensures IsSlug(Downcase(s))
  {
    var d := Downcase(s);
    forall i | 0 <= i < |s|
      ensures IsWordChar(d[i]) && !IsUpper(d[i]) && (d[i] == Sep <==> s[i] == Sep)
    {
      assert d[i] == ToLower(s[i]);
    }
  }

  /** Whatever the input, the normaliser produces a slug. */
  lemma NormalizeIsSlug(s: string)
    ensures IsSlug(Normalize(s))
  {
    var a := ReplaceDisallowed(s);
    var b := Squeeze(a);
    var c := StripSep(b);
    assert AllWordChars(b) by {
      forall i | 0 <= i < |b| ensures IsWordChar(b[i]) {
        var j :| 0 <= j < |a| && a[j] == b[i];
      }
    }
    assert AllWordChars(c) by {
      forall i | 0 <= i < |c| ensures IsWordChar(c[i]) {
        var j :| 0 <= j < |b| && b[j] == c[i];
      }
    }
    DowncaseKeepsShape(c);
    DowncaseNoUpper(Downcase(c));
  }

  /** A slug is a fixed point of the normaliser. */
  lemma NormalizeFixesSlug(t: string)
    requires IsSlug(t)
    ensures Normalize(t) == t
  {
    assert ReplaceDisallowed(t) == t;
    assert Squeeze(t) == t;
    assert StripSep(t) == t;
    DowncaseNoUpper(t);
  }

  /** Normalising twice is the same as normalising once. */
  lemma NormalizeIdempotent(s: string)
    ensures Normalize(Normalize(s)) == Normalize(s)
  {
    NormalizeIsSlug(s);
    NormalizeFixesSlug(Normalize(s));
  }

  /** When replacing disallowed characters already yields single, inner
      separators, normalising is just downcasing. */
  lemma NormalizeWithoutSqueeze(s: string, t: string, u: string)
    requires ReplaceDisallowed(s) == t && NoDoubleSep(t) && NoEdgeSep(t)
    requires Downcase(t) == u && forall i :: 0 <= i < |u| ==> !IsUpper(u[i])
    ensures Normalize(s) == u
  {
    DowncaseNoUpper(u);
  }

  // The concrete examples below take their literal as a parameter pinned by
  // `requires`: stated directly, the verifier unfolds the normaliser on the
  // literal and runs out of resource.

  lemma ReplaceLabelExample(s: string)
    requires s == "Publication Date"
    ensures ReplaceDisallowed(s) == "Publication_Date"
  {
    var a := ReplaceDisallowed(s);
    assert forall i :: 0 <= i < 16 ==> a[i] == "Publication_Date"[i];
  }

  lemma LabelExampleShape(t: string)
    requires t == "Publication_Date"
    ensures NoDoubleSep(t) && NoEdgeSep(t)
  {
    assert t[11] == Sep && forall i :: 0 <= i < 16 && i != 11 ==> t[i] != Sep;
  }

  lemma DowncaseLabelExample(t: string, u: string)
    requires t == "Publication_Date" && u == "publication_date"
    ensures Downcase(t) == u
    ensures forall i :: 0 <= i < |u| ==> !IsUpper(u[i])
  {
    var d := Downcase(t);
    assert forall i :: 0 <= i < 16 ==> d[i] == u[i];
  }

  /** The label "Publication Date" normalises to "publication_date". */
  lemma NormalizeLabelExample(s: string)
    requires s == "Publication Date"
    ensures Normalize(s) == "publication_date"
  {
    var t, u := "Publication_Date", "publication_date";
    ReplaceLabelExample(s);
    LabelExampleShape(t);
    DowncaseLabelExample(t, u);
    NormalizeWithoutSqueeze(s, t, u);
  }

  /** An explicit alias "pubDate" normalises to "pubdate". */
  lemma NormalizeAliasExample(s: string)
    requires s == "pubDate"
    ensures Normalize(s) == "pubdate"
  {
    var a := ReplaceDisallowed(s);
    assert forall i :: 0 <= i < 7 ==> a[i] == "pubDate"[i];
    var d := Downcase("pubDate");
    assert forall i :: 0 <= i < 7 ==> d[i] == "pubdate"[i];
    NormalizeWithoutSqueeze(s, "pubDate", "pubdate");
  }
}
