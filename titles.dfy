/** The two ways the server turns a video title into the file name it suggests in the
    `Content-Disposition` header: the strict one of the merge download and the lenient one
    of the direct download. */
module Titles {
  import opened Chars
  import opened Seqs

  /** The merge download keeps at most this many characters of the title. */
  const MaxStemLength: nat := 100

  predicate OnlyWordChars(s: string) {
    forall i | 0 <= i < |s| :: IsWordChar(s[i])
  }

  predicate NoDoubleUnderscore(s: string) {
    forall i | 0 <= i < |s| - 1 :: !(s[i] == '_' && s[i + 1] == '_')
  }

  // ---------------------------------------------------------------------------------------
  // Merge download: four steps, in this order.

  function UnderscoreFor(c: char): char {
    if IsAsciiAlnum(c) then c else '_'
  }

  /** Step 1: every character outside `[a-zA-Z0-9]` becomes `_`. (A character outside the
      Basic Multilingual Plane is two UTF-16 units to the server and so two `_`, which step 2
      merges into one: the result is the same.) */
  function UnderscoreOthers(title: string): string {
    MapSeq(title, UnderscoreFor)
  }

  /** Step 2: every run of `_` becomes a single `_`. */
  function CollapseUnderscores(s: string): string {
    if s == [] then []
    else if |s| > 1 && s[0] == '_' && s[1] == '_' then CollapseUnderscores(s[1..])
    else [s[0]] + CollapseUnderscores(s[1..])
  }

  /** Step 3: one `_` at the start and one at the end are removed; a lone `_` goes once. */
  function TrimUnderscores(s: string): string {
    var a := if s != [] && s[0] == '_' then s[1..] else s;
    if a != [] && a[|a| - 1] == '_' then a[..|a| - 1] else a
  }

  /** Step 4: the first `n` characters. */
  function Truncate(s: string, n: nat): string {
    if |s| <= n then s else s[..n]
  }

  /** The file name stem of a merged download. */
  function MergeStem(title: string): string {
    Truncate(TrimUnderscores(CollapseUnderscores(UnderscoreOthers(title))), MaxStemLength)
  }

  lemma UnderscoreOthersWordChars(title: string)
    ensures OnlyWordChars(UnderscoreOthers(title))
  {
  }

  lemma {:induction false} CollapseHead(s: string)
    requires s != []
    ensures CollapseUnderscores(s) != [] && CollapseUnderscores(s)[0] == s[0]
  {
    if |s| > 1 && s[0] == '_' && s[1] == '_' {
      CollapseHead(s[1..]);
    }
  }

  /** Collapsing only deletes characters, so it keeps a character class. */
  lemma {:induction false} CollapseWordChars(s: string)
    requires OnlyWordChars(s)
    ensures OnlyWordChars(CollapseUnderscores(s))
  {
    if s != [] {
      CollapseWordChars(s[1..]);
    }
  }

  lemma {:induction false} CollapseNoDouble(s: string)
    ensures NoDoubleUnderscore(CollapseUnderscores(s))
  {
    if s != [] {
      CollapseNoDouble(s[1..]);
      if !(|s| > 1 && s[0] == '_' && s[1] == '_') && |s| > 1 {
        CollapseHead(s[1..]);
      }
    }
  }

  /** Collapsing removes underscores only: the letters and digits stay, in order. */
  lemma {:induction false} CollapseKeepsAlnum(s: string)
    ensures Filter(CollapseUnderscores(s), IsAsciiAlnum) == Filter(s, IsAsciiAlnum)
  {
    if s != [] {
      CollapseKeepsAlnum(s[1..]);
      if !(|s| > 1 && s[0] == '_' && s[1] == '_') {
        FilterAppend([s[0]], CollapseUnderscores(s[1..]), IsAsciiAlnum);
      }
    }
  }

  /** A string without doubled underscores is left alone by step 2. */
  lemma {:induction false} CollapseIdentity(s: string)
    requires NoDoubleUnderscore(s)
    ensures CollapseUnderscores(s) == s
  {
    if s != [] {
      CollapseIdentity(s[1..]);
      assert s == [s[0]] + s[1..];
    }
  }

  lemma DropLastUnderscore(a: string)
    requires a != [] && a[|a| - 1] == '_'
    ensures Filter(a[..|a| - 1], IsAsciiAlnum) == Filter(a, IsAsciiAlnum)
  {
    assert a == a[..|a| - 1] + "_";
    FilterAppend(a[..|a| - 1], "_", IsAsciiAlnum);
    assert Filter("_", IsAsciiAlnum) == [];
  }

  lemma TrimKeepsAlnum(s: string)
    ensures Filter(TrimUnderscores(s), IsAsciiAlnum) == Filter(s, IsAsciiAlnum)
  {
    var a := if s != [] && s[0] == '_' then s[1..] else s;
    assert Filter(a, IsAsciiAlnum) == Filter(s, IsAsciiAlnum);
    if a != [] && a[|a| - 1] == '_' {
      DropLastUnderscore(a);
    }
  }

  lemma TruncateKeepsAlnumPrefix(s: string, n: nat)
    ensures Filter(Truncate(s, n), IsAsciiAlnum) <= Filter(s, IsAsciiAlnum)
  {
    if |s| > n {
      assert s == s[..n] + s[n..];
      FilterAppend(s[..n], s[n..], IsAsciiAlnum);
    }
  }

  /** The merge stem uses only `[A-Za-z0-9_]`, never doubles or starts with `_`, has at most
      100 characters, and ends in `_` only where the cut at 100 characters falls right after
      an underscore: a stem shorter than 100 never ends in `_`, and one that ends in `_` was
      cut from a longer trimmed text. */
  lemma MergeStemShape(title: string)
    ensures OnlyWordChars(MergeStem(title))
    ensures NoDoubleUnderscore(MergeStem(title))
    ensures |MergeStem(title)| <= MaxStemLength
    ensures MergeStem(title) != [] ==> MergeStem(title)[0] != '_'
    ensures 0 < |MergeStem(title)| < MaxStemLength ==> MergeStem(title)[|MergeStem(title)| - 1] != '_'
    ensures MergeStem(title) != [] && MergeStem(title)[|MergeStem(title)| - 1] == '_' ==>
      |TrimUnderscores(CollapseUnderscores(UnderscoreOthers(title)))| > MaxStemLength
  {
    var u := UnderscoreOthers(title);
    var c := CollapseUnderscores(u);
    UnderscoreOthersWordChars(title);
    CollapseWordChars(u);
    CollapseNoDouble(u);
    var t := TrimUnderscores(c);
    assert NoDoubleUnderscore(t) && OnlyWordChars(t);
    assert t != [] ==> t[0] != '_';
    assert t != [] ==> t[|t| - 1] != '_';
  }

  /** The letters and digits of the stem are the title's letters and digits, cut short only
      when the stem reaches 100 characters. */
  lemma MergeStemAlnum(title: string)
    ensures Filter(MergeStem(title), IsAsciiAlnum) <= Filter(title, IsAsciiAlnum)
    ensures |MergeStem(title)| < MaxStemLength ==> Filter(MergeStem(title), IsAsciiAlnum) == Filter(title, IsAsciiAlnum)
  {
    var u := UnderscoreOthers(title);
    var c := CollapseUnderscores(u);
    var t := TrimUnderscores(c);
    UnderscoreKeepsAlnum(title);
    CollapseKeepsAlnum(u);
    TrimKeepsAlnum(c);
    TruncateKeepsAlnumPrefix(t, MaxStemLength);
  }

  lemma {:induction false} UnderscoreKeepsAlnum(title: string)
    ensures Filter(UnderscoreOthers(title), IsAsciiAlnum) == Filter(title, IsAsciiAlnum)
  {
    if title != [] {
      var u := UnderscoreOthers(title);
      assert u == [u[0]] + UnderscoreOthers(title[1..]);
      UnderscoreKeepsAlnum(title[1..]);
      FilterAppend([u[0]], UnderscoreOthers(title[1..]), IsAsciiAlnum);
    }
  }

  predicate AllAlnum(s: string) {
    forall i | 0 <= i < |s| :: IsAsciiAlnum(s[i])
  }

  /** A title of at most 100 ASCII letters and digits is its own stem. */
  lemma MergeStemOfPlainTitle(title: string)
    requires |title| <= MaxStemLength && AllAlnum(title)
    ensures MergeStem(title) == title
  {
    assert UnderscoreOthers(title) == title;
    CollapseIdentity(title);
  }

  /** The cut at 100 characters comes after the trim, so an underscore can end the stem:
      99 letters, one space and one more letter give the 99 letters and `_`. */
  lemma MergeStemCanEndInUnderscore(w: string, c: char, d: char)
    requires |w| == MaxStemLength - 1 && AllAlnum(w)
    requires !IsAsciiAlnum(c) && IsAsciiAlnum(d)
    ensures MergeStem(w + [c, d]) == w + ['_']
  {
    var u := UnderscoreOthers(w + [c, d]);
    assert u == w + ['_', d];
    CollapseIdentity(u);
    assert TrimUnderscores(u) == u;
    assert u[..MaxStemLength] == w + ['_'];
  }

  // ---------------------------------------------------------------------------------------
  // Direct download: one step.

  /** `\w` or `\s`: the characters the direct download keeps. */
  predicate IsKeptByDirect(c: char) {
    IsWordChar(c) || IsJsWhitespace(c)
  }

  /** Every character other than a word character or white space is deleted. */
  function DirectStem(title: string): string {
    Filter(title, IsKeptByDirect)
  }

  /** The direct stem consists of kept characters, is no longer than the title, and is a
      subsequence of it; each kept character occurs as often as in the title and every
      other character not at all; applying it twice is applying it once. */
  lemma DirectStemSpec(title: string, c: char)
    ensures forall i | 0 <= i < |DirectStem(title)| :: IsKeptByDirect(DirectStem(title)[i])
    ensures |DirectStem(title)| <= |title|
    ensures IsSubsequence(DirectStem(title), title)
    ensures multiset(DirectStem(title))[c] == if IsKeptByDirect(c) then multiset(title)[c] else 0
    ensures DirectStem(DirectStem(title)) == DirectStem(title)
  {
    FilterSpec(title, IsKeptByDirect);
    FilterIsSubsequence(title, IsKeptByDirect);
    FilterCount(title, IsKeptByDirect, c);
    FilterAll(DirectStem(title), IsKeptByDirect);
  }

  /** A title made only of kept characters is its own stem. */
  lemma DirectStemOfPlainTitle(title: string)
    requires forall i | 0 <= i < |title| :: IsKeptByDirect(title[i])
    ensures DirectStem(title) == title
  {
    FilterAll(title, IsKeptByDirect);
  }
}
