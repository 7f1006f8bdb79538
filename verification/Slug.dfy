/** Directory names: slugs made from titles, and the numbered candidates tried when a slug is taken. */
module Slugs {

  predicate SlugChar(c: char) {
    'a' <= c <= 'z' || '0' <= c <= '9' || c == '-'
  }

  /** Non-empty, over [a-z0-9-], no dash at either end and no two in a row. */
  predicate IsSlug(s: string) {
    && s != "" && s[0] != '-' && s[|s| - 1] != '-'
    && Clean(s)
  }

  predicate Clean(s: string) {
    && (forall i :: 0 <= i < |s| ==> SlugChar(s[i]))
    && (forall i :: 0 < i < |s| ==> !(s[i - 1] == '-' && s[i] == '-'))
  }

  /** A name the directory walks do not skip. */
  predicate Visible(name: string) {
    name != "" && name[0] != '.' && '/' !in name
  }

  function DropNonSlug(s: string): (r: string)
    ensures |r| <= |s|
  {
    if s != "" && !SlugChar(s[0]) then DropNonSlug(s[1..]) else s
  }

  /** Every run of characters outside [a-z0-9-] becomes one dash. */
  function ReplaceRuns(s: string): (r: string)
    ensures forall i :: 0 <= i < |r| ==> SlugChar(r[i])
    decreases |s|
  {
    if s == "" then ""
    else if SlugChar(s[0]) then [s[0]] + ReplaceRuns(s[1..])
    else "-" + ReplaceRuns(DropNonSlug(s[1..]))
  }

  /** Every run of dashes becomes one dash. */
  function CollapseDashes(s: string): (r: string)
    requires forall i :: 0 <= i < |s| ==> SlugChar(s[i])
    ensures Clean(r)
    ensures s != "" ==> r != "" && r[0] == s[0]
  {
    if s == "" then ""
    else if |s| > 1 && s[0] == '-' && s[1] == '-' then CollapseDashes(s[1..])
    else
      var rest := CollapseDashes(s[1..]);
      [s[0]] + rest
  }

  function TrimLeft(s: string): string {
    if s != "" && s[0] == '-' then TrimLeft(s[1..]) else s
  }

  function TrimRight(s: string): string {
    if s != "" && s[|s| - 1] == '-' then TrimRight(s[..|s| - 1]) else s
  }

  /** `fold` stands for NFKD normalisation, removal of combining marks and lower-casing. */
  function Slugify(fold: string -> string, title: string): string {
    var text := TrimRight(TrimLeft(CollapseDashes(ReplaceRuns(fold(title)))));
    if text == "" then "node" else text
  }

  lemma {:induction false} TrimLeftClean(s: string)
    requires Clean(s)
    ensures Clean(TrimLeft(s)) && (TrimLeft(s) != "" ==> TrimLeft(s)[0] != '-')
  {
    if s != "" && s[0] == '-' { TrimLeftClean(s[1..]); }
  }

  lemma {:induction false} TrimRightClean(s: string)
    requires Clean(s) && (s != "" ==> s[0] != '-')
    ensures TrimRight(s) == "" || IsSlug(TrimRight(s))
  {
    if s != "" && s[|s| - 1] == '-' { TrimRightClean(s[..|s| - 1]); }
  }

  /** Whatever the title, the result is a slug. */
  lemma SlugifyIsSlug(fold: string -> string, title: string)
    ensures IsSlug(Slugify(fold, title))
  {
    var text := CollapseDashes(ReplaceRuns(fold(title)));
    TrimLeftClean(text);
    TrimRightClean(TrimLeft(text));
  }

  lemma {:induction false} CleanUntouched(s: string)
    requires Clean(s)
    ensures ReplaceRuns(s) == s && CollapseDashes(s) == s
  {
    if s != "" {
      assert Clean(s[1..]);
      CleanUntouched(s[1..]);
      assert s == [s[0]] + s[1..];
    }
  }

  /** The slugs are exactly the strings slugify leaves alone, and exactly its
      results; in particular slugify is idempotent. */
  lemma SlugifyFixesExactlySlugs(fold: string -> string, s: string)
    requires forall x: string :: IsSlug(x) ==> fold(x) == x
    ensures IsSlug(s) <==> Slugify(fold, s) == s
    ensures IsSlug(s) <==> exists title :: Slugify(fold, title) == s
    ensures Slugify(fold, Slugify(fold, s)) == Slugify(fold, s)
  {
    SlugifyIsSlug(fold, s);
    forall x: string | IsSlug(x) ensures Slugify(fold, x) == x {
      CleanUntouched(x);
    }
    forall title { SlugifyIsSlug(fold, title); }
  }

  // ---------- what slugify makes of the words of a title ----------

  predicate Alnum(c: char) {
    'a' <= c <= 'z' || '0' <= c <= '9'
  }

  ghost predicate IsWord(w: string) {
    w != "" && forall i :: 0 <= i < |w| ==> 'a' <= w[i] <= 'z' || '0' <= w[i] <= '9'
  }

  ghost predicate IsGap(g: string) {
    forall i :: 0 <= i < |g| ==> !('a' <= g[i] <= 'z' || '0' <= g[i] <= '9')
  }

  /** The longest runs over [a-z0-9], in order. */
  ghost function Words(s: string): (words: seq<string>)
    ensures s != "" && Alnum(s[0]) ==> words != []
  {
    if s == "" then []
    else if !Alnum(s[0]) then Words(s[1..])
    else if |s| > 1 && Alnum(s[1]) then [[s[0]] + Words(s[1..])[0]] + Words(s[1..])[1..]
    else [[s[0]]] + Words(s[1..])
  }

  /** Words with one dash between them. */
  ghost function Dashed(words: seq<string>): string {
    if words == [] then "" else if |words| == 1 then words[0] else words[0] + "-" + Dashed(words[1..])
  }

  /** Words with anything else before, between and after them. */
  ghost function Spread(words: seq<string>, gaps: seq<string>): string
    requires |gaps| == |words| + 1
  {
    if words == [] then gaps[0] else gaps[0] + words[0] + Spread(words[1..], gaps[1..])
  }

  /** One more character in front of strings that start alike. */
  lemma SameFront(c: char, a: string, b: string)
    requires Words(a) == Words(b)
    requires (a != "" && Alnum(a[0])) <==> (b != "" && Alnum(b[0]))
    ensures Words([c] + a) == Words([c] + b)
  {
    assert ([c] + a)[1..] == a && ([c] + b)[1..] == b;
  }

  lemma {:induction false} GapInFront(g: string, s: string)
    requires IsGap(g)
    ensures Words(g + s) == Words(s)
  {
    if g == "" {
      assert g + s == s;
    } else {
      assert (g + s)[1..] == g[1..] + s && !Alnum(g[0]);
      GapInFront(g[1..], s);
    }
  }

  lemma {:induction false} DropKeepsWords(s: string)
    ensures Words(DropNonSlug(s)) == Words(s)
  {
    if s != "" && !SlugChar(s[0]) { DropKeepsWords(s[1..]); }
  }

  /** Neither replacing runs nor collapsing dashes changes the words. */
  lemma {:induction false} ReplaceKeepsWords(s: string)
    ensures Words(ReplaceRuns(s)) == Words(s)
    ensures (ReplaceRuns(s) != "" && Alnum(ReplaceRuns(s)[0])) <==> (s != "" && Alnum(s[0]))
    decreases |s|
  {
    if s != "" {
      assert s == [s[0]] + s[1..];
      if SlugChar(s[0]) {
        ReplaceKeepsWords(s[1..]);
        SameFront(s[0], ReplaceRuns(s[1..]), s[1..]);
      } else {
        var rest := DropNonSlug(s[1..]);
        ReplaceKeepsWords(rest);
        DropKeepsWords(s[1..]);
        GapInFront("-", ReplaceRuns(rest));
      }
    }
  }

  lemma {:induction false} CollapseKeepsWords(s: string)
    requires forall i :: 0 <= i < |s| ==> SlugChar(s[i])
    ensures Words(CollapseDashes(s)) == Words(s)
  {
    if s != "" {
      assert s == [s[0]] + s[1..];
      CollapseKeepsWords(s[1..]);
      if |s| > 1 && s[0] == '-' && s[1] == '-' {
        GapInFront("-", s[1..]);
      } else {
        SameFront(s[0], CollapseDashes(s[1..]), s[1..]);
      }
    }
  }

  lemma {:induction false} TrimLeftKeepsWords(s: string)
    ensures Words(TrimLeft(s)) == Words(s)
  {
    if s != "" && s[0] == '-' { TrimLeftKeepsWords(s[1..]); }
  }

  lemma {:induction false} GapBehind(s: string, c: char)
    requires !Alnum(c)
    ensures Words(s + [c]) == Words(s)
  {
    if s == "" {
      assert s + [c] == [c] && [c][1..] == "";
    } else {
      assert s == [s[0]] + s[1..] && s + [c] == [s[0]] + (s[1..] + [c]);
      GapBehind(s[1..], c);
      SameFront(s[0], s[1..] + [c], s[1..]);
    }
  }

  lemma {:induction false} TrimRightKeepsWords(s: string)
    ensures Words(TrimRight(s)) == Words(s)
  {
    if s != "" && s[|s| - 1] == '-' {
      assert s == s[..|s| - 1] + ['-'];
      GapBehind(s[..|s| - 1], '-');
      TrimRightKeepsWords(s[..|s| - 1]);
    }
  }

  /** A slug is its own words with dashes between. */
  lemma {:induction false} SlugIsDashed(s: string)
    requires IsSlug(s)
    ensures Words(s) != [] && Dashed(Words(s)) == s
    decreases |s|
  {
    assert Alnum(s[0]);
    if |s| > 1 {
      if s[1] == '-' {
        var rest := s[2..];
        assert s == [s[0]] + "-" + rest;
        SlugTail(s, 2);
        SlugIsDashed(rest);
        assert Words(s[1..]) == Words(rest) by { assert s[1..][1..] == rest; }
      } else {
        var rest := s[1..];
        SlugTail(s, 1);
        SlugIsDashed(rest);
        LongerFirst(s[0], Words(rest));
        assert s == [s[0]] + rest;
      }
    } else {
      assert Words(s[1..]) == [] && s == [s[0]];
    }
  }

  lemma SlugTail(s: string, k: nat)
    requires IsSlug(s) && 0 < k <= 2 && k <= |s| && (k == 2 ==> s[1] == '-') && (k == 1 ==> |s| > 1 && s[1] != '-')
    ensures IsSlug(s[k..])
  {
    var rest := s[k..];
    assert forall i :: 0 <= i < |rest| ==> rest[i] == s[i + k];
    if k == 2 { assert |s| > 2; }
  }

  lemma LongerFirst(c: char, words: seq<string>)
    requires words != []
    ensures Dashed([[c] + words[0]] + words[1..]) == [c] + Dashed(words)
  {
    var longer := [[c] + words[0]] + words[1..];
    assert longer[1..] == words[1..];
  }

  /** Slugify, for every title: the words of the folded title with one dash
      between them, or "node" if there is none. */
  lemma SlugifyJoinsWords(fold: string -> string, title: string)
    ensures Slugify(fold, title) == if Words(fold(title)) == [] then "node" else Dashed(Words(fold(title)))
  {
    var replaced := ReplaceRuns(fold(title));
    var collapsed := CollapseDashes(replaced);
    ReplaceKeepsWords(fold(title));
    CollapseKeepsWords(replaced);
    TrimLeftKeepsWords(collapsed);
    TrimRightKeepsWords(TrimLeft(collapsed));
    TrimLeftClean(collapsed);
    TrimRightClean(TrimLeft(collapsed));
    var text := TrimRight(TrimLeft(collapsed));
    if text != "" { SlugIsDashed(text); }
  }

  // ---------- the same from the words' side ----------

  lemma {:induction false} WordInFront(w: string, s: string)
    requires IsWord(w) && (s == "" || !Alnum(s[0]))
    ensures Words(w + s) == [w] + Words(s)
  {
    assert (w + s)[1..] == w[1..] + s && Alnum(w[0]);
    if |w| > 1 {
      assert IsWord(w[1..]) && Alnum(w[1]);
      WordInFront(w[1..], s);
      assert [w[0]] + w[1..] == w;
    } else {
      assert w[1..] + s == s && [w[0]] == w;
    }
  }

  ghost predicate Separated(words: seq<string>, gaps: seq<string>) {
    && |gaps| == |words| + 1
    && (forall i :: 0 <= i < |words| ==> IsWord(words[i]))
    && (forall i :: 0 <= i < |gaps| ==> IsGap(gaps[i]))
    && (forall i :: 0 < i < |words| ==> gaps[i] != "")
  }

  lemma {:induction false} SpreadWords(words: seq<string>, gaps: seq<string>)
    requires Separated(words, gaps)
    ensures Words(Spread(words, gaps)) == words
    decreases |words|
  {
    if words == [] {
      GapInFront(gaps[0], "");
      assert gaps[0] + "" == gaps[0];
    } else {
      var rest := Spread(words[1..], gaps[1..]);
      assert Separated(words[1..], gaps[1..]);
      SpreadWords(words[1..], gaps[1..]);
      SpreadStart(words[1..], gaps[1..]);
      WordInFront(words[0], rest);
      GapInFront(gaps[0], words[0] + rest);
      assert gaps[0] + (words[0] + rest) == gaps[0] + words[0] + rest;
    }
  }

  lemma SpreadStart(words: seq<string>, gaps: seq<string>)
    requires |gaps| == |words| + 1 && IsGap(gaps[0]) && (words != [] ==> gaps[0] != "")
    ensures Spread(words, gaps) == "" || !Alnum(Spread(words, gaps)[0])
  {
    if words != [] { assert Spread(words, gaps)[0] == gaps[0][0]; }
  }

  /** Whatever stands around and between any number of words leaves one dash
      between two of them and no other trace; without words the slug is "node". */
  lemma SlugifySpread(fold: string -> string, title: string, words: seq<string>, gaps: seq<string>)
    requires Separated(words, gaps) && fold(title) == Spread(words, gaps)
    ensures Slugify(fold, title) == if words == [] then "node" else Dashed(words)
  {
    SpreadWords(words, gaps);
    SlugifyJoinsWords(fold, title);
  }

  lemma {:induction false} WordsApart(u: string, x: string, v: string)
    requires x != "" && IsGap(x)
    ensures Words(u + x + v) == Words(u) + Words(v)
  {
    if u == "" {
      GapInFront(x, v);
      assert u + x + v == x + v;
    } else {
      assert u == [u[0]] + u[1..] && u + x + v == [u[0]] + (u[1..] + x + v);
      WordsApart(u[1..], x, v);
      assert (u + x + v)[1..] == u[1..] + x + v;
      assert |u| > 1 ==> (u + x + v)[1] == u[1];
      assert |u| == 1 ==> (u + x + v)[1] == x[0];
    }
  }

  lemma {:induction false} DashedApart(a: seq<string>, b: seq<string>)
    requires a != [] && b != []
    ensures Dashed(a + b) == Dashed(a) + "-" + Dashed(b)
  {
    assert (a + b)[1..] == a[1..] + b;
    if |a| > 1 { DashedApart(a[1..], b); } else { assert a[1..] + b == b; }
  }

  /** Two slugs with anything but [a-z0-9] between them become one, with one dash. */
  lemma SlugifyTwo(fold: string -> string, title: string, u: string, x: string, v: string)
    requires IsSlug(u) && IsSlug(v) && x != "" && IsGap(x) && fold(title) == u + x + v
    ensures Slugify(fold, title) == u + "-" + v
  {
    SlugifyJoinsWords(fold, title);
    WordsApart(u, x, v);
    SlugIsDashed(u);
    SlugIsDashed(v);
    DashedApart(Words(u), Words(v));
  }

  // ---------- numbered candidates ----------

  function Digit(d: nat): char
    requires d < 10
  {
    '0' + d as char
  }

  function Decimal(n: nat): (s: string)
    ensures s != "" && forall i :: 0 <= i < |s| ==> '0' <= s[i] <= '9'
  {
    if n < 10 then [Digit(n)] else Decimal(n / 10) + [Digit(n % 10)]
  }

  lemma {:induction false} ParseDecimal(n: nat)
    ensures Value(Decimal(n)) == n
  {
    var s := Decimal(n);
    if n < 10 {
      assert s[..|s| - 1] == "";
    } else {
      ParseDecimal(n / 10);
      assert s[..|s| - 1] == Decimal(n / 10);
    }
  }

  /** base, base-2, base-3, ... */
  function Candidate(base: string, k: nat): string {
    if k <= 1 then base else base + "-" + Decimal(k)
  }

  lemma CandidatesDistinct(base: string, i: nat, j: nat)
    requires 1 <= i < j
    ensures Candidate(base, i) != Candidate(base, j)
  {
    ParseDecimal(i);
    ParseDecimal(j);
    if i > 1 {
      assert Candidate(base, i)[|base| + 1..] == Decimal(i);
      assert Candidate(base, j)[|base| + 1..] == Decimal(j);
    }
  }

  /** The value of a string of decimal digits. */
  ghost function Value(s: string): int {
    if s == "" then 0 else 10 * Value(s[..|s| - 1]) + (s[|s| - 1] as int - '0' as int)
  }

  /** The k-th candidate is the base followed, from the second on, by a dash and
      the number k in decimal, without leading zeros. */
  lemma CandidatePlain(base: string, k: nat)
    requires k >= 1
    ensures k == 1 ==> Candidate(base, k) == base
    ensures k >= 2 ==> exists digits ::
              && Candidate(base, k) == base + "-" + digits
              && digits != "" && digits[0] != '0' && (forall i :: 0 <= i < |digits| ==> '0' <= digits[i] <= '9')
              && Value(digits) == k
  {
    ParseDecimal(k);
    NoLeadingZero(k);
    assert k >= 2 ==> Candidate(base, k) == base + "-" + Decimal(k);
  }

  lemma {:induction false} NoLeadingZero(n: nat)
    requires n > 0
    ensures Decimal(n)[0] != '0'
  {
    if n >= 10 { NoLeadingZero(n / 10); }
  }

  /** A candidate is visible to the walks and is none of the files of a node directory. */
  lemma CandidateVisible(base: string, k: nat)
    requires IsSlug(base)
    ensures Visible(Candidate(base, k))
    ensures Candidate(base, k) != "node.json" && Candidate(base, k) != "canvas.md"
  {
    var c := Candidate(base, k);
    assert forall i :: 0 <= i < |c| ==> SlugChar(c[i]);
    assert "node.json"[4] == '.' && "canvas.md"[6] == '.';
  }
}
