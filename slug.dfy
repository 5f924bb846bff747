/**
 * Slug generation for article titles: the title is lower-cased, every maximal
 * run of characters that are not ASCII letters or digits becomes a single
 * hyphen, and hyphens at either end are dropped. A slug is therefore the
 * title's alphanumeric words, lower-cased and joined by single hyphens.
 */
module Slug {
  import opened Text

  /** A non-empty run of letters and digits. */
  predicate IsRun(w: string)
  {
    |w| > 0 && forall i :: 0 <= i < |w| ==> IsAlnum(w[i])
  }

  /** A word of a slug: a run with no upper-case letter. */
  predicate IsWord(w: string)
  {
    IsRun(w) && forall i :: 0 <= i < |w| ==> !IsUpper(w[i])
  }

  predicate IsSlugChar(c: char)
  {
    (IsAlnum(c) && !IsUpper(c)) || c == '-'
  }

  /** The shape every generated slug has. */
  ghost predicate IsSlug(s: string)
  {
    && (forall i :: 0 <= i < |s| ==> IsSlugChar(s[i]))
    && (|s| > 0 ==> s[0] != '-' && s[|s| - 1] != '-')
    && (forall i :: 0 <= i < |s| - 1 && s[i] == '-' ==> s[i + 1] != '-')
  }

  /** Length of the leading run of letters and digits. */
  function RunLength(s: string): (n: nat)
    ensures n <= |s|
    ensures forall i :: 0 <= i < n ==> IsAlnum(s[i])
    ensures n < |s| ==> !IsAlnum(s[n])
  {
    if s == [] || !IsAlnum(s[0]) then 0 else 1 + RunLength(s[1..])
  }

  /** The lower-cased alphanumeric runs of `s`, in order. */
  function Words(s: string): (ws: seq<string>)
    ensures forall k :: 0 <= k < |ws| ==> IsWord(ws[k])
    decreases |s|
  {
    if s == [] then []
    else if !IsAlnum(s[0]) then Words(s[1..])
    else
      var n := RunLength(s);
      [Lowered(s[..n])] + Words(s[n..])
  }

  /** The strings separated by single `sep` characters. */
  function Join(ws: seq<string>, sep: char): string
  {
    if |ws| == 0 then []
    else if |ws| == 1 then ws[0]
    else ws[0] + [sep] + Join(ws[1..], sep)
  }

  /** Slug derived from a title. */
  function Slugify(title: string): (slug: string)
    ensures IsSlug(slug)
  {
    JoinIsSlug(Words(title));
    Join(Words(title), '-')
  }

  /** Joining words with hyphens gives a slug, which is empty exactly when there are no words. */
  lemma {:induction false} JoinIsSlug(ws: seq<string>)
    requires forall k :: 0 <= k < |ws| ==> IsWord(ws[k])
    ensures IsSlug(Join(ws, '-'))
    ensures |Join(ws, '-')| == 0 <==> |ws| == 0
  {
    if |ws| >= 2 {
      var w, rest := ws[0], Join(ws[1..], '-');
      JoinIsSlug(ws[1..]);
      var s := w + "-" + rest;
      assert Join(ws, '-') == s;
      assert IsWord(w);
      forall i | 0 <= i < |s| ensures IsSlugChar(s[i]) {
        if i < |w| { assert s[i] == w[i]; }
        else if i > |w| { assert s[i] == rest[i - |w| - 1]; }
      }
      forall i | 0 <= i < |s| - 1 ensures s[i] == '-' ==> s[i + 1] != '-' {
        if i < |w| {
          assert s[i] == w[i];
        } else if i == |w| {
          assert s[i + 1] == rest[0];
        } else {
          assert s[i] == rest[i - |w| - 1] && s[i + 1] == rest[i - |w|];
        }
      }
      assert s[|s| - 1] == rest[|rest| - 1];
    } else if |ws| == 1 {
      assert IsWord(ws[0]);
    }
  }

  /** The leading run of `w + rest` is exactly `w` when `rest` starts with a separator. */
  lemma {:induction false} RunLengthOfRun(w: string, rest: string)
    requires forall i :: 0 <= i < |w| ==> IsAlnum(w[i])
    requires rest == [] || !IsAlnum(rest[0])
    ensures RunLength(w + rest) == |w|
    decreases |w|
  {
    if w != [] {
      assert (w + rest)[1..] == w[1..] + rest;
      RunLengthOfRun(w[1..], rest);
    }
  }

  /** Text that starts with a run yields that run lower-cased, then the words of the rest. */
  lemma WordsOfRunThen(w: string, rest: string)
    requires IsRun(w)
    requires rest == [] || !IsAlnum(rest[0])
    ensures Words(w + rest) == [Lowered(w)] + Words(rest)
  {
    var s := w + rest;
    RunLengthOfRun(w, rest);
    assert s[..|w|] == w && s[|w|..] == rest;
  }

  /** Each string lower-cased. */
  function LowerEach(ws: seq<string>): (r: seq<string>)
    ensures |r| == |ws|
    ensures forall k :: 0 <= k < |ws| ==> r[k] == Lowered(ws[k])
  {
    if ws == [] then [] else [Lowered(ws[0])] + LowerEach(ws[1..])
  }

  /**
   * Splitting runs joined by any separator recovers the runs, lower-cased:
   * the separator itself never becomes part of a word.
   */
  lemma {:induction false} WordsOfJoin(rs: seq<string>, sep: char)
    requires forall k :: 0 <= k < |rs| ==> IsRun(rs[k])
    requires !IsAlnum(sep)
    ensures Words(Join(rs, sep)) == LowerEach(rs)
  {
    if |rs| == 1 {
      WordsOfRunThen(rs[0], []);
      assert rs[0] + [] == rs[0];
    } else if |rs| >= 2 {
      var rest := Join(rs[1..], sep);
      WordsOfJoin(rs[1..], sep);
      assert rs[0] + [sep] + rest == rs[0] + ([sep] + rest);
      WordsOfRunThen(rs[0], [sep] + rest);
      assert ([sep] + rest)[1..] == rest;
    }
  }

  /** Slugifying a generated slug gives it back unchanged. */
  lemma SlugifyIdempotent(title: string)
    ensures Slugify(Slugify(title)) == Slugify(title)
  {
    var ws := Words(title);
    forall k | 0 <= k < |ws| ensures IsRun(ws[k]) {
      assert IsWord(ws[k]);
    }
    WordsOfJoin(ws, '-');
    forall k | 0 <= k < |ws| ensures Lowered(ws[k]) == ws[k] {
      assert IsWord(ws[k]);
    }
    assert LowerEach(ws) == ws;
  }

  /** Joining a word in front of a non-empty list puts one separator between them. */
  lemma JoinCons(w: string, ws: seq<string>, sep: char)
    requires |ws| >= 1
    ensures Join([w] + ws, sep) == w + [sep] + Join(ws, sep)
  {
    assert ([w] + ws)[1..] == ws;
  }

  /** Four strings joined by `sep` are the strings with one `sep` between each neighbouring pair. */
  lemma JoinFour(w1: string, w2: string, w3: string, w4: string, sep: char)
    ensures Join([w1, w2, w3, w4], sep) == w1 + [sep] + w2 + [sep] + w3 + [sep] + w4
  {
    JoinCons(w3, [w4], sep);
    assert [w3, w4] == [w3] + [w4];
    JoinCons(w2, [w3, w4], sep);
    assert [w2, w3, w4] == [w2] + [w3, w4];
    JoinCons(w1, [w2, w3, w4], sep);
    assert [w1, w2, w3, w4] == [w1] + [w2, w3, w4];
  }

  /** The feature test's title is its four runs joined by spaces, and its slug the lower-cased runs joined by hyphens. */
  lemma TestTitleJoins()
    ensures Join(["My", "Test", "Article", "Title"], ' ') == "My Test Article Title"
    ensures Join(["my", "test", "article", "title"], '-') == "my-test-article-title"
  {
    JoinFour("My", "Test", "Article", "Title", ' ');
    JoinFour("my", "test", "article", "title", '-');
  }

  /** The runs "My", "Test", "Article", "Title" joined by spaces slugify to their hyphenated lower-case form. */
  lemma SlugOfSpacedRuns(my: string, test: string, article: string, title: string)
    requires my == "My" && test == "Test" && article == "Article" && title == "Title"
    ensures Slugify(Join([my, test, article, title], ' ')) == "my-test-article-title"
  {
    var rs := [my, test, article, title];
    assert IsRun(my) && IsRun(test) && IsRun(article) && IsRun(title);
    WordsOfJoin(rs, ' ');
    assert Lowered(my) == "my" && Lowered(test) == "test";
    assert Lowered(article) == "article" && Lowered(title) == "title";
    assert LowerEach(rs) == ["my", "test", "article", "title"];
    TestTitleJoins();
  }

  /**
   * The title "My Test Article Title" of the article-creation feature test
   * gets the slug "my-test-article-title".
   */
  lemma SlugOfTestTitle()
    ensures Slugify("My Test Article Title") == "my-test-article-title"
  {
    TestTitleJoins();
    SlugOfSpacedRuns("My", "Test", "Article", "Title");
  }
}
