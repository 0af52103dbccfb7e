/** The two slug normalisers of the admin client.

    `ServiceSlug` is the four-step `generateSlug` shared, character for
    character, by the posts, categories and placements client services:
    lower-case, drop everything outside [a-z0-9 -], turn each run of
    whitespace into '-', merge runs of '-', strip leading and trailing '-'.

    `FormSlug` is the category form's own `generateSlug`: lower-case, trim,
    drop everything outside [\w\s-], turn each run of [\s_-] into '-', strip
    leading and trailing '-'.

    Each regular-expression replacement is one function below. */
module Slugs {
  import opened Text
  import Seqs

  predicate IsHyphen(c: char) { c == '-' }

  predicate NotHyphen(c: char) { c != '-' }

  /** The characters /[^a-z0-9 -]/g leaves in place. */
  predicate ServiceKept(c: char) { IsSlugChar(c) || c == ' ' || c == '-' }

  /** The characters /[^\w\s-]/g leaves in place. */
  predicate FormKept(c: char) { IsWordChar(c) || IsSpace(c) || c == '-' }

  /** The class [\s_-]. */
  predicate FormSeparator(c: char) { IsSpace(c) || c == '_' || c == '-' }

  /** The [a-z0-9] characters of `s`, in order. */
  function Alnum(s: string): string {
    Seqs.Filter(s, IsSlugChar)
  }

  // ---------------------------------------------------------------------
  // The replacement steps

  /** The leading run of `sep` characters removed. */
  function DropRun(s: string, sep: char -> bool): (r: string)
    ensures |r| <= |s|
    ensures r == s[|s| - |r|..]
    ensures |r| > 0 ==> !sep(r[0])
    ensures forall i :: 0 <= i < |s| - |r| ==> sep(s[i])
  {
    if |s| > 0 && sep(s[0]) then
      var r := DropRun(s[1..], sep);
      DropRunStep(s, sep, r);
      r
    else s
  }

  /** One more separator in front of a dropped run is dropped as well. */
  lemma DropRunStep(s: string, sep: char -> bool, r: string)
    requires |s| > 0 && sep(s[0])
    requires |r| <= |s| - 1 && r == s[1..][|s| - 1 - |r|..]
    requires forall i :: 0 <= i < |s| - 1 - |r| ==> sep(s[1..][i])
    ensures r == s[|s| - |r|..]
    ensures forall i :: 0 <= i < |s| - |r| ==> sep(s[i])
  {
    DropDrop(s, 1, |s| - 1 - |r|);
    forall i | 0 < i < |s| - |r| ensures sep(s[i]) {
      assert s[i] == s[1..][i - 1];
    }
  }

  /** The trailing run of '-' removed. */
  function DropTrailingHyphens(s: string): (r: string)
    ensures |r| <= |s|
    ensures r == s[..|r|]
    ensures |r| > 0 ==> r[|r| - 1] != '-'
    ensures forall i :: |r| <= i < |s| ==> s[i] == '-'
  {
    if |s| > 0 && s[|s| - 1] == '-' then
      var r := DropTrailingHyphens(s[..|s| - 1]);
      TakeTake(s, |s| - 1, |r|);
      r
    else s
  }

  /** replace(/^-+|-+$/g, ''). Where the result sits in `s` is stated by
      `TrimHyphensInfix` and `TrimHyphensOffset`. */
  function TrimHyphens(s: string): (r: string)
    ensures |r| <= |s|
    ensures |r| > 0 ==> r[0] != '-' && r[|r| - 1] != '-'
  {
    DropTrailingHyphens(DropRun(s, IsHyphen))
  }

  /** replace(/[class]+/g, '-') where `sep` is the class: every maximal run
      of `sep` characters becomes a single '-'. */
  function CollapseRuns(s: string, sep: char -> bool): (r: string)
    ensures forall c :: c in r ==> c == '-' || (c in s && !sep(c))
    ensures |s| > 0 ==> |r| > 0 && r[0] == (if sep(s[0]) then '-' else s[0])
    decreases |s|
  {
    if |s| == 0 then []
    else if sep(s[0]) then
      var t := DropRun(s[1..], sep);
      assert forall c :: c in t ==> c in s by {
        forall c | c in t ensures c in s {
          var i :| 0 <= i < |t| && t[i] == c;
          assert t[i] == s[|s| - |t| + i];
        }
      }
      ['-'] + CollapseRuns(t, sep)
    else
      [s[0]] + CollapseRuns(s[1..], sep)
  }

  // ---------------------------------------------------------------------
  // The two normalisers

  function ServiceSlug(s: string): string {
    TrimHyphens(CollapseRuns(CollapseRuns(Seqs.Filter(ToLower(s), ServiceKept), IsSpace), IsHyphen))
  }

  function FormSlug(s: string): string {
    TrimHyphens(CollapseRuns(Seqs.Filter(Trim(ToLower(s)), FormKept), FormSeparator))
  }

  // ---------------------------------------------------------------------
  // The shape of a slug and the two form patterns

  predicate NoDoubleHyphen(s: string) {
    forall i :: 0 <= i < |s| - 1 ==> !(s[i] == '-' && s[i + 1] == '-')
  }

  predicate OnlySlugCharsOrHyphens(s: string) {
    forall i :: 0 <= i < |s| ==> IsSlugChar(s[i]) || s[i] == '-'
  }

  /** Only [a-z0-9-], no leading, trailing or doubled '-'. */
  predicate IsSlug(s: string) {
    && OnlySlugCharsOrHyphens(s)
    && (|s| > 0 ==> s[0] != '-' && s[|s| - 1] != '-')
    && NoDoubleHyphen(s)
  }

  /** The post form's slug validator /^[a-z0-9-]+$/. */
  predicate MatchesPostFormPattern(s: string) {
    |s| > 0 && OnlySlugCharsOrHyphens(s)
  }

  /** The category form's slug validator /^[a-z0-9]+(?:-[a-z0-9]+)*$/, read
      left to right: one [a-z0-9], then `MatchesPatternTail`. */
  predicate MatchesCategoryFormPattern(s: string) {
    |s| > 0 && IsSlugChar(s[0]) && MatchesPatternTail(s[1..])
  }

  /** What may follow a [a-z0-9] character: more of them, or a '-' followed
      by one of them, repeated. */
  predicate MatchesPatternTail(t: string)
    decreases |t|
  {
    || |t| == 0
    || (IsSlugChar(t[0]) && MatchesPatternTail(t[1..]))
    || (|t| >= 2 && t[0] == '-' && IsSlugChar(t[1]) && MatchesPatternTail(t[2..]))
  }

  // ---------------------------------------------------------------------
  // Facts about the steps

  lemma {:induction false} CollapseNoDoubleHyphen(s: string, sep: char -> bool)
    requires sep('-')
    ensures NoDoubleHyphen(CollapseRuns(s, sep))
    decreases |s|
  {
    var r := CollapseRuns(s, sep);
    if |s| > 0 {
      var rest := if sep(s[0]) then DropRun(s[1..], sep) else s[1..];
      var tail := CollapseRuns(rest, sep);
      assert r == [r[0]] + tail;
      CollapseNoDoubleHyphen(rest, sep);
      if |rest| > 0 {
        assert tail[0] == rest[0] || sep(rest[0]);
        assert sep(s[0]) ==> tail[0] != '-';
      }
      forall i | 0 <= i < |r| - 1 ensures !(r[i] == '-' && r[i + 1] == '-') {
        if i > 0 {
          assert r[i] == tail[i - 1] && r[i + 1] == tail[i];
        }
      }
    }
  }

  /** A string whose `sep` characters are lone hyphens is left unchanged. */
  lemma {:induction false} CollapseIdentity(s: string, sep: char -> bool)
    requires forall i :: 0 <= i < |s| && sep(s[i]) ==> s[i] == '-'
    requires forall i :: 0 <= i < |s| - 1 && sep(s[i]) ==> !sep(s[i + 1])
    ensures CollapseRuns(s, sep) == s
    decreases |s|
  {
    if |s| > 0 {
      var rest := s[1..];
      if sep(s[0]) {
        assert |rest| > 0 ==> !sep(rest[0]);
        assert DropRun(rest, sep) == rest;
      }
      CollapseIdentity(rest, sep);
      HeadTail(s);
    }
  }

  /** Collapsing runs of characters outside [a-z0-9] keeps the [a-z0-9] ones. */
  lemma {:induction false} CollapseKeepsAlnum(s: string, sep: char -> bool)
    requires forall c :: sep(c) ==> !IsSlugChar(c)
    ensures Alnum(CollapseRuns(s, sep)) == Alnum(s)
    decreases |s|
  {
    if |s| > 0 {
      if sep(s[0]) {
        var t := DropRun(s[1..], sep);
        CollapseKeepsAlnum(t, sep);
        assert t == DropRun(s, sep);
        SepPrefixHasNoAlnum(s, sep);
        calc {
          Alnum(CollapseRuns(s, sep));
          Alnum(['-'] + CollapseRuns(t, sep));
          { Seqs.FilterConcat(['-'], CollapseRuns(t, sep), IsSlugChar); }
          Alnum(CollapseRuns(t, sep));
        }
      } else {
        CollapseKeepsAlnum(s[1..], sep);
        assert s == [s[0]] + s[1..];
        Seqs.FilterConcat([s[0]], s[1..], IsSlugChar);
        Seqs.FilterConcat([s[0]], CollapseRuns(s[1..], sep), IsSlugChar);
      }
    }
  }

  /** A leading run of separators holds no [a-z0-9] character. */
  lemma SepPrefixHasNoAlnum(s: string, sep: char -> bool)
    requires forall c :: sep(c) ==> !IsSlugChar(c)
    ensures Alnum(s) == Alnum(DropRun(s, sep))
  {
    var t := DropRun(s, sep);
    var k := |s| - |t|;
    SplitAt(s, k);
    SepRunHasNoAlnum(s[..k], sep);
    Seqs.FilterConcat(s[..k], t, IsSlugChar);
  }

  /** A run of separators holds no [a-z0-9] character. */
  lemma SepRunHasNoAlnum(p: string, sep: char -> bool)
    requires forall c :: sep(c) ==> !IsSlugChar(c)
    requires forall i :: 0 <= i < |p| ==> sep(p[i])
    ensures Alnum(p) == []
  {
    Seqs.FilterNone(p, IsSlugChar);
  }

  /** TrimHyphens removes a hyphen prefix and a hyphen suffix. */
  lemma TrimHyphensInfix(s: string) returns (pre: string, post: string)
    ensures s == pre + (TrimHyphens(s) + post)
    ensures forall i :: 0 <= i < |pre| ==> pre[i] == '-'
    ensures forall i :: 0 <= i < |post| ==> post[i] == '-'
  {
    var t := DropRun(s, IsHyphen);
    var r := DropTrailingHyphens(t);
    assert r == TrimHyphens(s);
    pre := s[..|s| - |t|];
    post := t[|r|..];
    SplitAt(s, |s| - |t|);
    SplitAt(t, |r|);
    forall i | 0 <= i < |pre| ensures pre[i] == '-' {
      assert IsHyphen(s[i]);
    }
    forall i | 0 <= i < |post| ensures post[i] == '-' {
      assert post[i] == t[|r| + i];
    }
  }

  lemma TrimHyphensKeepsAlnum(s: string)
    ensures Alnum(TrimHyphens(s)) == Alnum(s)
  {
    var r := TrimHyphens(s);
    var pre, post := TrimHyphensInfix(s);
    assert forall c :: c in pre ==> !IsSlugChar(c);
    assert forall c :: c in post ==> !IsSlugChar(c);
    Seqs.FilterNone(pre, IsSlugChar);
    Seqs.FilterNone(post, IsSlugChar);
    Seqs.FilterConcat(pre, r + post, IsSlugChar);
    Seqs.FilterConcat(r, post, IsSlugChar);
  }

  /** TrimHyphens(s) is a slice of `s`. */
  lemma TrimHyphensOffset(s: string) returns (k: nat)
    ensures k + |TrimHyphens(s)| <= |s|
    ensures forall i :: 0 <= i < |TrimHyphens(s)| ==> TrimHyphens(s)[i] == s[k + i]
  {
    var t := DropRun(s, IsHyphen);
    var r := DropTrailingHyphens(t);
    k := |s| - |t|;
    assert r == TrimHyphens(s);
    forall i | 0 <= i < |r| ensures r[i] == s[k + i] {
      assert r[i] == t[i];
    }
  }

  /** Stripping the outer hyphens cannot introduce a doubled hyphen or a new character. */
  lemma TrimHyphensShape(s: string)
    ensures NoDoubleHyphen(s) ==> NoDoubleHyphen(TrimHyphens(s))
    ensures OnlySlugCharsOrHyphens(s) ==> OnlySlugCharsOrHyphens(TrimHyphens(s))
  {
    var k := TrimHyphensOffset(s);
  }

  lemma TrimHyphensIdentity(s: string)
    requires |s| > 0 ==> s[0] != '-' && s[|s| - 1] != '-'
    ensures TrimHyphens(s) == s
  {
  }

  /** Removing the hyphens from a string of [a-z0-9-] leaves its [a-z0-9]. */
  lemma HyphensAside(s: string)
    requires OnlySlugCharsOrHyphens(s)
    ensures Seqs.Filter(s, NotHyphen) == Alnum(s)
  {
    forall c | c in s ensures NotHyphen(c) <==> IsSlugChar(c) { }
    Seqs.FilterAgree(s, NotHyphen, IsSlugChar);
  }

  lemma ToLowerIdentity(s: string)
    requires forall i :: 0 <= i < |s| ==> !IsUpper(s[i])
    ensures ToLower(s) == s
  {
  }

  // ---------------------------------------------------------------------
  // The services' generateSlug

  lemma ServiceSlugIsSlug(s: string)
    ensures IsSlug(ServiceSlug(s))
  {
    var b := Seqs.Filter(ToLower(s), ServiceKept);
    var c := CollapseRuns(b, IsSpace);
    var d := CollapseRuns(c, IsHyphen);
    CollapseNoDoubleHyphen(c, IsHyphen);
    assert OnlySlugCharsOrHyphens(d) by {
      forall i | 0 <= i < |d| ensures IsSlugChar(d[i]) || d[i] == '-' {
        assert d[i] in d;
      }
    }
    TrimHyphensShape(d);
  }

  /** The services' generateSlug leaves a slug unchanged. */
  lemma ServiceSlugFixesSlugs(s: string)
    requires IsSlug(s)
    ensures ServiceSlug(s) == s
  {
    ToLowerIdentity(s);
    Seqs.FilterAll(s, ServiceKept);
    CollapseIdentity(s, IsSpace);
    CollapseIdentity(s, IsHyphen);
    TrimHyphensIdentity(s);
  }

  lemma ServiceSlugIdempotent(s: string)
    ensures ServiceSlug(ServiceSlug(s)) == ServiceSlug(s)
  {
    ServiceSlugIsSlug(s);
    ServiceSlugFixesSlugs(ServiceSlug(s));
  }

  /** Deleting every '-' from the slug gives the [a-z0-9] characters of the
      lower-cased input, in order. */
  lemma ServiceSlugKeepsAlnum(s: string)
    ensures Seqs.Filter(ServiceSlug(s), NotHyphen) == Alnum(ToLower(s))
  {
    ServiceSlugAlnum(s);
    ServiceSlugIsSlug(s);
    HyphensAside(ServiceSlug(s));
  }

  lemma ServiceSlugAlnum(s: string)
    ensures Alnum(ServiceSlug(s)) == Alnum(ToLower(s))
  {
    var b := Seqs.Filter(ToLower(s), ServiceKept);
    var c := CollapseRuns(b, IsSpace);
    var d := CollapseRuns(c, IsHyphen);
    KeptKeepsAlnum(ToLower(s), ServiceKept);
    SpaceCollapseKeepsAlnum(b);
    HyphenCollapseKeepsAlnum(c);
    TrimHyphensKeepsAlnum(d);
  }

  /** Dropping characters outside a class that holds [a-z0-9] keeps the [a-z0-9] ones. */
  lemma KeptKeepsAlnum(s: string, kept: char -> bool)
    requires forall c :: IsSlugChar(c) ==> kept(c)
    ensures Alnum(Seqs.Filter(s, kept)) == Alnum(s)
  {
    Seqs.FilterNested(s, kept, IsSlugChar);
  }

  lemma SpaceCollapseKeepsAlnum(s: string)
    ensures Alnum(CollapseRuns(s, IsSpace)) == Alnum(s)
  {
    CollapseKeepsAlnum(s, IsSpace);
  }

  lemma HyphenCollapseKeepsAlnum(s: string)
    ensures Alnum(CollapseRuns(s, IsHyphen)) == Alnum(s)
  {
    CollapseKeepsAlnum(s, IsHyphen);
  }

  lemma SeparatorCollapseKeepsAlnum(s: string)
    ensures Alnum(CollapseRuns(s, FormSeparator)) == Alnum(s)
  {
    CollapseKeepsAlnum(s, FormSeparator);
  }

  lemma ServiceSlugEmpty(s: string)
    ensures ServiceSlug(s) == [] <==> Alnum(ToLower(s)) == []
  {
    var r := ServiceSlug(s);
    ServiceSlugKeepsAlnum(s);
    ServiceSlugIsSlug(s);
    if r != [] {
      assert r[0] in Seqs.Filter(r, NotHyphen);
    }
  }

  lemma ServiceSlugMatchesPostFormPattern(s: string)
    requires ServiceSlug(s) != []
    ensures MatchesPostFormPattern(ServiceSlug(s))
  {
    ServiceSlugIsSlug(s);
  }

  // ---------------------------------------------------------------------
  // The category form's pattern is exactly the non-empty slugs

  lemma {:induction false} PatternTailShape(t: string)
    ensures MatchesPatternTail(t) <==>
      OnlySlugCharsOrHyphens(t) && NoDoubleHyphen(t) && (|t| > 0 ==> t[|t| - 1] != '-')
    decreases |t|
  {
    if |t| > 0 {
      PatternTailShape(t[1..]);
      if |t| >= 2 {
        PatternTailShape(t[2..]);
        assert t[1..][1..] == t[2..];
      }
      assert forall i :: 0 <= i < |t| - 1 ==> t[1..][i] == t[i + 1];
      assert forall i :: 0 <= i < |t| - 2 ==> t[2..][i] == t[i + 2];
    }
  }

  lemma CategoryFormPatternIsSlug(s: string)
    ensures MatchesCategoryFormPattern(s) <==> |s| > 0 && IsSlug(s)
  {
    if |s| > 0 {
      PatternTailShape(s[1..]);
      assert forall i :: 0 <= i < |s| - 1 ==> s[1..][i] == s[i + 1];
    }
  }

  lemma ServiceSlugMatchesCategoryFormPattern(s: string)
    requires ServiceSlug(s) != []
    ensures MatchesCategoryFormPattern(ServiceSlug(s))
  {
    ServiceSlugIsSlug(s);
    CategoryFormPatternIsSlug(ServiceSlug(s));
  }

  // ---------------------------------------------------------------------
  // The category form's generateSlug

  lemma TrimKeepsAlnum(s: string)
    ensures Alnum(Trim(s)) == Alnum(s)
  {
    var r := Trim(s);
    var pre, post := TrimInfix(s);
    assert forall c :: c in pre ==> !IsSlugChar(c);
    assert forall c :: c in post ==> !IsSlugChar(c);
    Seqs.FilterNone(pre, IsSlugChar);
    Seqs.FilterNone(post, IsSlugChar);
    Seqs.FilterConcat(pre, r + post, IsSlugChar);
    Seqs.FilterConcat(r, post, IsSlugChar);
  }

  lemma TrimmedLowerHasNoUpper(s: string)
    ensures forall c :: c in Trim(ToLower(s)) ==> !IsUpper(c)
  {
    var a := ToLower(s);
    var t := Trim(a);
    var pre, post := TrimInfix(a);
    forall c | c in t ensures !IsUpper(c) {
      assert c in t + post;
      assert c in a;
    }
  }

  lemma FormSlugIsSlug(s: string)
    ensures IsSlug(FormSlug(s))
  {
    var t := Trim(ToLower(s));
    TrimmedLowerHasNoUpper(s);
    var b := Seqs.Filter(t, FormKept);
    assert forall x :: x in b ==> IsSlugChar(x) || FormSeparator(x) by {
      forall x | x in b ensures IsSlugChar(x) || FormSeparator(x) {
        assert x in t && FormKept(x);
      }
    }
    var c := CollapseRuns(b, FormSeparator);
    CollapseNoDoubleHyphen(b, FormSeparator);
    assert OnlySlugCharsOrHyphens(c) by {
      forall i | 0 <= i < |c| ensures IsSlugChar(c[i]) || c[i] == '-' {
        assert c[i] in c;
      }
    }
    TrimHyphensShape(c);
  }

  /** The category form's generateSlug leaves a slug unchanged. */
  lemma FormSlugFixesSlugs(s: string)
    requires IsSlug(s)
    ensures FormSlug(s) == s
  {
    LowerFixesSlugs(s);
    TrimFixesSlugs(s);
    FormKeptFixesSlugs(s);
    SeparatorCollapseFixesSlugs(s);
    TrimHyphensIdentity(s);
  }

  lemma LowerFixesSlugs(s: string)
    requires IsSlug(s)
    ensures ToLower(s) == s
  {
    ToLowerIdentity(s);
  }

  lemma FormKeptFixesSlugs(s: string)
    requires IsSlug(s)
    ensures Seqs.Filter(s, FormKept) == s
  {
    Seqs.FilterAll(s, FormKept);
  }

  lemma TrimFixesSlugs(s: string)
    requires IsSlug(s)
    ensures Trim(s) == s
  {
    if |s| > 0 {
      assert !IsSpace(s[0]) && !IsSpace(s[|s| - 1]);
    }
  }

  lemma SeparatorCollapseFixesSlugs(s: string)
    requires IsSlug(s)
    ensures CollapseRuns(s, FormSeparator) == s
  {
    CollapseIdentity(s, FormSeparator);
  }

  lemma FormSlugIdempotent(s: string)
    ensures FormSlug(FormSlug(s)) == FormSlug(s)
  {
    FormSlugIsSlug(s);
    FormSlugFixesSlugs(FormSlug(s));
  }

  /** Like the services' version, the form's slug holds exactly the [a-z0-9]
      characters of the lower-cased input; the two differ only in where they
      put hyphens. */
  lemma FormSlugKeepsAlnum(s: string)
    ensures Seqs.Filter(FormSlug(s), NotHyphen) == Alnum(ToLower(s))
  {
    FormSlugAlnum(s);
    FormSlugIsSlug(s);
    HyphensAside(FormSlug(s));
  }

  lemma FormSlugAlnum(s: string)
    ensures Alnum(FormSlug(s)) == Alnum(ToLower(s))
  {
    var t := Trim(ToLower(s));
    var b := Seqs.Filter(t, FormKept);
    var c := CollapseRuns(b, FormSeparator);
    TrimKeepsAlnum(ToLower(s));
    KeptKeepsAlnum(t, FormKept);
    SeparatorCollapseKeepsAlnum(b);
    TrimHyphensKeepsAlnum(c);
  }

  lemma FormSlugMatchesCategoryFormPattern(s: string)
    requires FormSlug(s) != []
    ensures MatchesCategoryFormPattern(FormSlug(s))
  {
    FormSlugIsSlug(s);
    CategoryFormPatternIsSlug(FormSlug(s));
  }

  // ---------------------------------------------------------------------
  // Where the two normalisers differ

  /** The separators the services' generator deletes outright, where the
      form's generator turns them into '-': '_' and whitespace other than
      the space. */
  predicate ServiceDropped(c: char) { c == '_' || (IsSpace(c) && c != ' ') }

  /** A slug and a nonempty slug joined by a run of [\s_-] characters: the
      form's generator puts exactly one '-' at the seam. */
  lemma FormSlugJoinsSlugs(a: string, run: string, b: string)
    requires IsSlug(a) && a != [] && IsSlug(b) && b != []
    requires run != [] && forall i :: 0 <= i < |run| ==> FormSeparator(run[i])
    ensures FormSlug(a + run + b) == a + "-" + b
  {
    var s := a + run + b;
    var joined := a + "-" + b;
    assert Seqs.Filter(Trim(ToLower(s)), FormKept) == s by {
      JoinedFormInput(a, run, b);
    }
    assert CollapseRuns(s, FormSeparator) == joined by {
      JoinedCollapse(a, run, b);
    }
    assert TrimHyphens(joined) == joined by {
      assert joined[0] == a[0] && joined[|joined| - 1] == b[|b| - 1];
      TrimHyphensIdentity(joined);
    }
  }

  /** Lower-casing, trimming and the [^\w\s-] filter leave the joined
      string as it is. */
  lemma JoinedFormInput(a: string, run: string, b: string)
    requires IsSlug(a) && a != [] && IsSlug(b) && b != []
    requires forall i :: 0 <= i < |run| ==> FormSeparator(run[i])
    ensures Seqs.Filter(Trim(ToLower(a + run + b)), FormKept) == a + run + b
  {
    var s := a + run + b;
    assert forall x :: x in s ==> !IsUpper(x) && FormKept(x) by {
      forall x | x in s ensures !IsUpper(x) && FormKept(x) {
        if x in a {
          var i :| 0 <= i < |a| && a[i] == x;
        } else if x in run {
          var i :| 0 <= i < |run| && run[i] == x;
        } else {
          var i :| 0 <= i < |b| && b[i] == x;
        }
      }
    }
    assert ToLower(s) == s by {
      forall i | 0 <= i < |s| ensures !IsUpper(s[i]) {
        assert s[i] in s;
      }
      ToLowerIdentity(s);
    }
    assert !IsSpace(s[0]) && !IsSpace(s[|s| - 1]) by {
      assert s[0] == a[0] && IsSlugChar(a[0]);
      assert s[|s| - 1] == b[|b| - 1] && IsSlugChar(b[|b| - 1]);
    }
    assert Trim(s) == s;
    Seqs.FilterAll(s, FormKept);
  }

  /** The collapse of [\s_-] runs turns the joining run into one '-'. */
  lemma JoinedCollapse(a: string, run: string, b: string)
    requires IsSlug(a) && a != [] && IsSlug(b) && b != []
    requires run != [] && forall i :: 0 <= i < |run| ==> FormSeparator(run[i])
    ensures CollapseRuns(a + run + b, FormSeparator) == a + "-" + b
  {
    var t := CollapseRuns(run + b, FormSeparator);
    assert t == "-" + b by {
      SeparatorRunCollapse(run, b);
    }
    assert CollapseRuns(a + (run + b), FormSeparator) == a + t by {
      SlugCollapsePrefix(a, run + b);
    }
    assert a + run + b == a + (run + b);
    ConcatAssoc(a, "-", b);
  }

  lemma ConcatAssoc(a: string, m: string, b: string)
    ensures a + (m + b) == a + m + b
  {
  }

  /** A run of [\s_-] in front of a slug becomes one '-'. */
  lemma SeparatorRunCollapse(run: string, b: string)
    requires IsSlug(b) && b != []
    requires run != [] && forall i :: 0 <= i < |run| ==> FormSeparator(run[i])
    ensures CollapseRuns(run + b, FormSeparator) == "-" + b
  {
    var rb := run + b;
    assert FormSeparator(rb[0]) by {
      assert rb[0] == run[0];
    }
    assert DropRun(rb[1..], FormSeparator) == b by {
      assert rb[1..] == run[1..] + b;
      assert forall c :: c in run[1..] ==> FormSeparator(c);
      assert !FormSeparator(b[0]);
      DropSeparatorRun(run[1..], b, FormSeparator);
    }
    assert CollapseRuns(b, FormSeparator) == b by {
      SeparatorCollapseFixesSlugs(b);
    }
  }

  /** The same join with a run of '_' and non-space whitespace: the
      services' generator deletes the run, so the two slugs run together. */
  lemma ServiceSlugDropsSeparators(a: string, run: string, b: string)
    requires IsSlug(a) && a != [] && IsSlug(b) && b != []
    requires forall i :: 0 <= i < |run| ==> ServiceDropped(run[i])
    ensures ServiceSlug(a + run + b) == a + b
  {
    assert Seqs.Filter(ToLower(a + run + b), ServiceKept) == a + b by {
      JoinedServiceInput(a, run, b);
    }
    assert TrimHyphens(CollapseRuns(CollapseRuns(a + b, IsSpace), IsHyphen)) == a + b by {
      SlugsConcat(a, b);
      ServiceStepsFixSlugs(a + b);
    }
  }

  /** Lower-casing and the [^a-z0-9 -] filter delete the run. */
  lemma JoinedServiceInput(a: string, run: string, b: string)
    requires IsSlug(a) && IsSlug(b)
    requires forall i :: 0 <= i < |run| ==> ServiceDropped(run[i])
    ensures Seqs.Filter(ToLower(a + run + b), ServiceKept) == a + b
  {
    assert ToLower(a + run + b) == a + run + b by {
      JoinedLower(a, run, b);
    }
    assert Seqs.Filter(a + run + b, ServiceKept) == a + b by {
      JoinedServiceFilter(a, run, b);
    }
  }

  lemma JoinedLower(a: string, run: string, b: string)
    requires IsSlug(a) && IsSlug(b)
    requires forall i :: 0 <= i < |run| ==> ServiceDropped(run[i])
    ensures ToLower(a + run + b) == a + run + b
  {
    var s := a + run + b;
    assert forall x :: x in s ==> !IsUpper(x) by {
      forall x | x in s ensures !IsUpper(x) {
        if x in a {
          var i :| 0 <= i < |a| && a[i] == x;
        } else if x in run {
          var i :| 0 <= i < |run| && run[i] == x;
        } else {
          var i :| 0 <= i < |b| && b[i] == x;
        }
      }
    }
    forall i | 0 <= i < |s| ensures !IsUpper(s[i]) {
      assert s[i] in s;
    }
    ToLowerIdentity(s);
  }

  lemma JoinedServiceFilter(a: string, run: string, b: string)
    requires IsSlug(a) && IsSlug(b)
    requires forall i :: 0 <= i < |run| ==> ServiceDropped(run[i])
    ensures Seqs.Filter(a + run + b, ServiceKept) == a + b
  {
    var ar := Seqs.Filter(a + run, ServiceKept);
    assert ar == a by {
      Seqs.FilterConcat(a, run, ServiceKept);
      Seqs.FilterAll(a, ServiceKept);
      Seqs.FilterNone(run, ServiceKept);
      assert a + [] == a;
    }
    assert Seqs.Filter(b, ServiceKept) == b by {
      Seqs.FilterAll(b, ServiceKept);
    }
    Seqs.FilterConcat(a + run, b, ServiceKept);
  }

  /** The services' last three steps leave a slug as it is. */
  lemma ServiceStepsFixSlugs(s: string)
    requires IsSlug(s)
    ensures TrimHyphens(CollapseRuns(CollapseRuns(s, IsSpace), IsHyphen)) == s
  {
    CollapseIdentity(s, IsSpace);
    CollapseIdentity(s, IsHyphen);
    TrimHyphensIdentity(s);
  }

  /** The smallest witness on the form's side: for [a-z0-9] characters x
      and y, "x_y" becomes "x-y" ("a_b" gives "a-b"). */
  lemma FormSlugUnderscore(x: char, y: char)
    requires IsSlugChar(x) && IsSlugChar(y)
    ensures FormSlug([x] + "_" + [y]) == [x] + "-" + [y]
  {
    FormSlugJoinsSlugs([x], "_", [y]);
  }

  /** The same input on the services' side: "x_y" becomes "xy" ("a_b"
      gives "ab"), so the two generators disagree on it. */
  lemma ServiceSlugUnderscore(x: char, y: char)
    requires IsSlugChar(x) && IsSlugChar(y)
    ensures ServiceSlug([x] + "_" + [y]) == [x] + [y]
    ensures FormSlug([x] + "_" + [y]) != ServiceSlug([x] + "_" + [y])
  {
    ServiceSlugDropsSeparators([x], "_", [y]);
    FormSlugUnderscore(x, y);
    assert |[x] + "-" + [y]| != |[x] + [y]|;
  }

  /** Two nonempty slugs side by side form a slug. */
  lemma SlugsConcat(a: string, b: string)
    requires IsSlug(a) && a != [] && IsSlug(b) && b != []
    ensures IsSlug(a + b)
  {
    var s := a + b;
    forall i | 0 <= i < |s| - 1 ensures !(s[i] == '-' && s[i + 1] == '-') {
      if i < |a| - 1 {
        assert s[i] == a[i] && s[i + 1] == a[i + 1];
      } else if i == |a| - 1 {
        assert s[i] == a[|a| - 1];
      } else {
        assert s[i] == b[i - |a|] && s[i + 1] == b[i + 1 - |a|];
      }
    }
    forall i | 0 <= i < |s| ensures IsSlugChar(s[i]) || s[i] == '-' {
      if i < |a| {
        assert s[i] == a[i];
      } else {
        assert s[i] == b[i - |a|];
      }
    }
  }

  /** A prefix of [a-z0-9] characters and lone inner hyphens, not ending in
      '-', is copied through the collapse of [\s_-] runs. */
  lemma {:induction false} SlugCollapsePrefix(a: string, t: string)
    requires OnlySlugCharsOrHyphens(a) && NoDoubleHyphen(a)
    requires |a| > 0 ==> a[|a| - 1] != '-'
    ensures CollapseRuns(a + t, FormSeparator) == a + CollapseRuns(t, FormSeparator)
    decreases |a|
  {
    if |a| > 0 {
      var s := a + t;
      var a' := a[1..];
      assert s[1..] == a' + t;
      SlugCharsTail(a);
      SlugCollapsePrefix(a', t);
      var rest := CollapseRuns(a' + t, FormSeparator);
      if FormSeparator(a[0]) {
        assert a[0] == '-' && |a| > 1;
        assert !FormSeparator(a[1]);
        assert (a' + t)[0] == a[1];
        assert DropRun(a' + t, FormSeparator) == a' + t;
        assert CollapseRuns(s, FormSeparator) == ['-'] + rest;
      } else {
        assert CollapseRuns(s, FormSeparator) == [a[0]] + rest;
      }
      ConsConcat(a, CollapseRuns(t, FormSeparator));
    } else {
      assert a + t == t;
      assert a + CollapseRuns(t, FormSeparator) == CollapseRuns(t, FormSeparator);
    }
  }

  lemma ConsConcat(a: string, x: string)
    requires |a| > 0
    ensures a + x == [a[0]] + (a[1..] + x)
  {
    assert a == [a[0]] + a[1..];
  }

  /** Dropping the first character keeps a string of [a-z0-9] and lone
      hyphens one. */
  lemma SlugCharsTail(a: string)
    requires |a| > 0 && OnlySlugCharsOrHyphens(a) && NoDoubleHyphen(a)
    ensures OnlySlugCharsOrHyphens(a[1..]) && NoDoubleHyphen(a[1..])
  {
    var a' := a[1..];
    forall i | 0 <= i < |a'| ensures IsSlugChar(a'[i]) || a'[i] == '-' {
      assert a'[i] == a[i + 1];
    }
    forall i | 0 <= i < |a'| - 1 ensures !(a'[i] == '-' && a'[i + 1] == '-') {
      assert a'[i] == a[i + 1] && a'[i + 1] == a[i + 2];
    }
  }

  /** A leading run of separators before a non-separator is dropped whole. */
  lemma {:induction false} DropSeparatorRun(x: string, b: string, sep: char -> bool)
    requires forall c :: c in x ==> sep(c)
    requires |b| > 0 && !sep(b[0])
    ensures DropRun(x + b, sep) == b
    decreases |x|
  {
    if |x| > 0 {
      assert (x + b)[1..] == x[1..] + b;
      assert x[0] in x;
      DropSeparatorRun(x[1..], b, sep);
    } else {
      assert x + b == b;
    }
  }
}
