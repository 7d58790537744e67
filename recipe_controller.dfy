/** The recipe pages (controls/recipeController.js): who may view, edit,
    update and delete a recipe, and how a submitted form becomes the data
    that is stored: the slug made from the name, the textarea lines, the
    numeric defaults, the shared flag and the image path. The database is
    abstracted: a lookup by slug is an `Option<Recipe>` input and a write's
    outcome is given by a function of what is written. */
module RecipeController {
  import opened Common
  import opened Text

  /** A row of the recipes table as the controller reads it. `isShared` is
      the stored 0/1 column, read as a truth value. */
  datatype Recipe = Recipe(id: nat, userId: string, slug: string, name: string, imagePath: string, isShared: int)

  /** The fields of the submitted form. `winningMinute` and `losingMinute` are
      what `parseFloat` and `parseInt` made of the text (None for NaN);
      `isShared` is None when the checkbox was not sent. */
  datatype RecipeForm = RecipeForm(
    name: string, ingredients: string, instructions: string,
    winningMinute: Option<real>, losingMinute: Option<int>,
    imageSource: string, defaultImage: string, animation: string,
    isShared: Option<string>)

  /** What the controller hands to the recipe store. */
  datatype RecipeData = RecipeData(
    slug: string, name: string, imagePath: string,
    ingredients: seq<string>, instructions: seq<string>, animation: string,
    winningMinute: real, losingMinute: int, isShared: int)

  /** How a write to the store ends. */
  datatype StoreResult = Stored | DuplicateEntry | OtherFailure

  /** The recipe the add/edit form is filled with. */
  datatype FormRecipe = StoredRow(row: Recipe) | Submitted(id: nat, data: RecipeData)

  datatype Reply =
    | Redirect(location: string)
    | Send(status: nat, text: string)
    | RenderRecipe(recipe: Recipe, isOwner: bool)
    | RenderForm(filled: Option<FormRecipe>, isEdit: bool, error: Option<string>)
    | NoReply    // the handler's promise rejects and no response is sent

  const DuplicateMessage := "A recipe with this name already exists! Please choose a different name."

  // ---------------------------------------------------------------------
  // Slugs: `name.toLowerCase().replace(/[^a-z0-9]+/g, '-') + '-' + user.id`

  predicate IsSlugChar(c: char) { 'a' <= c <= 'z' || '0' <= c <= '9' }

  /** ASCII upper case to lower case; every other character is kept. */
  function LowerChar(c: char): (d: char)
    ensures !('A' <= d <= 'Z')
    ensures IsSlugChar(d) ==> d == c || 'A' <= c <= 'Z'
  {
    if 'A' <= c <= 'Z' then (c as int - 'A' as int + 'a' as int) as char else c
  }

  function Lower(s: string): (r: string)
    ensures |r| == |s| && forall i :: 0 <= i < |s| ==> r[i] == LowerChar(s[i])
  {
    seq(|s|, i requires 0 <= i < |s| => LowerChar(s[i]))
  }

  /** The text after the run of non-slug characters that `s` starts with. */
  function DropRun(s: string): (r: string)
    ensures |r| <= |s| && r == s[|s| - |r|..]
    ensures r != [] ==> IsSlugChar(r[0])
    ensures forall i :: 0 <= i < |s| - |r| ==> !IsSlugChar(s[i])
  {
    if s != [] && !IsSlugChar(s[0]) then
      var r := DropRun(s[1..]);
      assert forall i :: 1 <= i < |s| - |r| ==> s[i] == s[1..][i - 1];
      r
    else s
  }

  /** Each maximal run of characters outside [a-z0-9] becomes one '-'. */
  function ReplaceRuns(s: string): (r: string)
    ensures |r| <= |s|
    decreases |s|
  {
    if s == [] then []
    else if IsSlugChar(s[0]) then [s[0]] + ReplaceRuns(s[1..])
    else "-" + ReplaceRuns(DropRun(s[1..]))
  }

  /** The characters of `s` in [a-z0-9], in order. */
  function Alphanumerics(s: string): string
  {
    if s == [] then [] else (if IsSlugChar(s[0]) then [s[0]] else []) + Alphanumerics(s[1..])
  }

  /** Text made only of [a-z0-9-] with no two '-' side by side. */
  predicate IsSlugText(t: string)
  {
    && (forall i :: 0 <= i < |t| ==> IsSlugChar(t[i]) || t[i] == '-')
    && (forall i :: 0 <= i < |t| - 1 ==> !(t[i] == '-' && t[i + 1] == '-'))
  }

  lemma {:induction false} ReplaceRunsHead(s: string)
    ensures s == [] <==> ReplaceRuns(s) == []
    ensures s != [] && IsSlugChar(s[0]) ==> ReplaceRuns(s)[0] == s[0]
    ensures s != [] && !IsSlugChar(s[0]) ==> ReplaceRuns(s)[0] == '-'
  {
  }

  /** A slug character, or a '-' in front of text that does not start with
      one, keeps slug text slug text. */
  lemma SlugTextCons(c: char, t: string)
    requires IsSlugText(t)
    requires IsSlugChar(c) || (c == '-' && (t == [] || t[0] != '-'))
    ensures IsSlugText([c] + t)
  {
    var r := [c] + t;
    assert forall i :: 1 <= i < |r| ==> r[i] == t[i - 1];
  }

  /** The replaced text is made of [a-z0-9-] and never holds "--". */
  lemma {:induction false} ReplaceRunsIsSlugText(s: string)
    ensures IsSlugText(ReplaceRuns(s))
    decreases |s|
  {
    if s != [] {
      if IsSlugChar(s[0]) {
        ReplaceRunsIsSlugText(s[1..]);
        SlugTextCons(s[0], ReplaceRuns(s[1..]));
      } else {
        var d := DropRun(s[1..]);
        ReplaceRunsIsSlugText(d);
        ReplaceRunsHead(d);
        SlugTextCons('-', ReplaceRuns(d));
      }
    }
  }

  lemma {:induction false} DropRunAlphanumerics(s: string)
    ensures Alphanumerics(DropRun(s)) == Alphanumerics(s)
    decreases |s|
  {
    if s != [] && !IsSlugChar(s[0]) {
      DropRunAlphanumerics(s[1..]);
    }
  }

  /** Every letter and digit survives, in order, and none is added. */
  lemma {:induction false} ReplaceRunsKeepsAlphanumerics(s: string)
    ensures Alphanumerics(ReplaceRuns(s)) == Alphanumerics(s)
    decreases |s|
  {
    if s != [] {
      var r := ReplaceRuns(s);
      if IsSlugChar(s[0]) {
        ReplaceRunsKeepsAlphanumerics(s[1..]);
        assert r[1..] == ReplaceRuns(s[1..]);
      } else {
        var d := DropRun(s[1..]);
        ReplaceRunsKeepsAlphanumerics(d);
        DropRunAlphanumerics(s[1..]);
        assert r[1..] == ReplaceRuns(d);
      }
    }
  }

  /** Slug text is left as it is, so replacing twice is replacing once. */
  lemma {:induction false} ReplaceRunsFixesSlugText(t: string)
    requires IsSlugText(t)
    ensures ReplaceRuns(t) == t
    decreases |t|
  {
    if t != [] {
      assert IsSlugText(t[1..]) by {
        assert forall i :: 0 <= i < |t[1..]| ==> t[1..][i] == t[i + 1];
      }
      if IsSlugChar(t[0]) {
        ReplaceRunsFixesSlugText(t[1..]);
      } else {
        assert t[1..] == [] || IsSlugChar(t[1]);
        assert DropRun(t[1..]) == t[1..];
        ReplaceRunsFixesSlugText(t[1..]);
      }
    }
  }

  lemma ReplaceRunsIdempotent(s: string)
    ensures ReplaceRuns(ReplaceRuns(s)) == ReplaceRuns(s)
  {
    ReplaceRunsIsSlugText(s);
    ReplaceRunsFixesSlugText(ReplaceRuns(s));
  }

  // A second, character-by-character reading of the same replacement:
  // first every character outside [a-z0-9] becomes '-' on its own, then
  // each row of '-' is squeezed to one.

  /** Each character outside [a-z0-9] turned into '-'; the rest kept. */
  function DashFor(s: string): (r: string)
    ensures |r| == |s|
    ensures forall i :: 0 <= i < |s| ==> (r[i] == '-' <==> !IsSlugChar(s[i]))
  {
    seq(|s|, i requires 0 <= i < |s| => if IsSlugChar(s[i]) then s[i] else '-')
  }

  /** Each row of adjacent '-' shortened to a single '-'. */
  function Squeeze(s: string): (r: string)
    ensures |r| <= |s|
    decreases |s|
  {
    if |s| <= 1 then s
    else if s[0] == '-' && s[1] == '-' then Squeeze(s[1..])
    else [s[0]] + Squeeze(s[1..])
  }

  lemma DashForCons(s: string)
    requires s != []
    ensures DashFor(s) == DashFor([s[0]]) + DashFor(s[1..])
  {
  }

  /** A '-' in front of a text that starts with '-' is squeezed away. */
  lemma SqueezeDashDash(t: string)
    requires t != [] && t[0] == '-'
    ensures Squeeze("-" + t) == Squeeze(t)
  {
    assert ("-" + t)[1..] == t;
  }

  lemma SqueezeDashHead(t: string)
    requires t == [] || t[0] != '-'
    ensures Squeeze("-" + t) == "-" + Squeeze(t)
  {
    assert ("-" + t)[1..] == t;
  }

  lemma SqueezeCharHead(c: char, t: string)
    requires c != '-'
    ensures Squeeze([c] + t) == [c] + Squeeze(t)
  {
    assert ([c] + t)[1..] == t;
  }

  /** A leading slug character stays in front of the squeezed rest. */
  lemma SqueezeSlugStep(s: string)
    requires s != [] && IsSlugChar(s[0])
    ensures Squeeze(DashFor(s)) == [s[0]] + Squeeze(DashFor(s[1..]))
  {
    DashForCons(s);
    assert DashFor([s[0]]) == [s[0]];
    SqueezeCharHead(s[0], DashFor(s[1..]));
  }

  /** Text that starts with a slug character does not start with '-' once
      dashed. */
  lemma DashForSlugHead(d: string)
    requires d == [] || IsSlugChar(d[0])
    ensures DashFor(d) == [] || DashFor(d)[0] != '-'
  {
  }

  /** A leading run of other characters is squeezed to one '-' in front of
      the squeezed text after the run. */
  lemma {:induction false} SqueezeRunStep(s: string)
    requires s != [] && !IsSlugChar(s[0])
    ensures Squeeze(DashFor(s)) == "-" + Squeeze(DashFor(DropRun(s[1..])))
    decreases |s|
  {
    var t := s[1..];
    DashForCons(s);
    assert DashFor([s[0]]) == "-";
    if t != [] && !IsSlugChar(t[0]) {
      DashForCons(t);
      assert DashFor([t[0]]) == "-";
      SqueezeDashDash(DashFor(t));
      SqueezeRunStep(t);
      assert DropRun(t) == DropRun(t[1..]);
    } else {
      assert DropRun(t) == t;
      DashForSlugHead(t);
      SqueezeDashHead(DashFor(t));
    }
  }

  /** The recursive replacement and the dash-then-squeeze reading agree on
      every text, so the '-' of a slug stand exactly where the name had a
      run of other characters. */
  lemma {:induction false} ReplaceRunsIsSqueezedDashes(s: string)
    ensures ReplaceRuns(s) == Squeeze(DashFor(s))
    decreases |s|
  {
    if s != [] {
      if IsSlugChar(s[0]) {
        ReplaceRunsIsSqueezedDashes(s[1..]);
        SqueezeSlugStep(s);
      } else {
        ReplaceRunsIsSqueezedDashes(DropRun(s[1..]));
        SqueezeRunStep(s);
      }
    }
  }

  /** The slug of a recipe named `name` owned by `userId`: the lower-cased
      name with every run of characters outside [a-z0-9] squeezed to one
      '-', then '-' and the owner's id. */
  function Slug(name: string, userId: string): (r: string)
    ensures r == Squeeze(DashFor(Lower(name))) + "-" + userId
    ensures |r| >= |userId| + 1
    ensures r[|r| - |userId| - 1..] == "-" + userId
    ensures IsSlugText(r[..|r| - |userId| - 1])
    ensures Alphanumerics(r[..|r| - |userId| - 1]) == Alphanumerics(Lower(name))
  {
    var body := ReplaceRuns(Lower(name));
    ReplaceRunsIsSqueezedDashes(Lower(name));
    ReplaceRunsIsSlugText(Lower(name));
    ReplaceRunsKeepsAlphanumerics(Lower(name));
    var r := body + "-" + userId;
    assert r[..|r| - |userId| - 1] == body;
    r
  }

  /** A name with a run of other characters in the middle and one at the
      end: each run, the trailing one too, leaves one '-'. */
  lemma SlugOfShortName()
    ensures Slug("A b!", "7") == "a-b--7"
  {
    assert Lower("A b!") == "a b!";
    assert DashFor("a b!") == "a-b-";
    SqueezeCharHead('b', "-");
    SqueezeDashHead("b-");
    SqueezeCharHead('a', "-b-");
    assert Squeeze(DashFor(Lower("A b!"))) == "a-b-";
    assert "a-b-" + "-" + "7" == "a-b--7";
  }

  // ---------------------------------------------------------------------
  // Textarea lines: `text.split('\r\n').filter(line => line.trim() !== '')`

  /** No "\r\n" inside `p`. */
  predicate NoCrlf(p: string)
  {
    forall i :: 0 <= i < |p| - 1 ==> !(p[i] == '\r' && p[i + 1] == '\n')
  }

  /** JavaScript's `s.split('\r\n')`: cuts at each "\r\n", left to right. */
  function SplitCrlf(s: string): (parts: seq<string>)
    ensures |parts| >= 1
    ensures |parts[0]| <= |s| && parts[0] == s[..|parts[0]|]
    decreases |s|
  {
    if s == [] then [""]
    else if |s| >= 2 && s[0] == '\r' && s[1] == '\n' then [""] + SplitCrlf(s[2..])
    else
      var rest := SplitCrlf(s[1..]);
      [[s[0]] + rest[0]] + rest[1..]
  }

  /** `parts.join('\r\n')`. */
  function JoinCrlf(parts: seq<string>): string
  {
    if |parts| == 0 then ""
    else if |parts| == 1 then parts[0]
    else parts[0] + "\r\n" + JoinCrlf(parts[1..])
  }

  lemma {:induction false} JoinSplitCrlf(s: string)
    ensures JoinCrlf(SplitCrlf(s)) == s
    decreases |s|
  {
    if s == [] {
    } else if |s| >= 2 && s[0] == '\r' && s[1] == '\n' {
      JoinSplitCrlf(s[2..]);
      JoinSplitAtSeparator(s);
    } else {
      JoinSplitCrlf(s[1..]);
      JoinSplitAtChar(s);
    }
  }

  lemma {:induction false} JoinSplitAtSeparator(s: string)
    requires |s| >= 2 && s[0] == '\r' && s[1] == '\n'
    requires JoinCrlf(SplitCrlf(s[2..])) == s[2..]
    ensures JoinCrlf(SplitCrlf(s)) == s
  {
    var rest := SplitCrlf(s[2..]);
    var parts := SplitCrlf(s);
    assert parts == [""] + rest;
    assert parts[1..] == rest;
    assert JoinCrlf(parts) == "" + "\r\n" + JoinCrlf(rest);
    assert s == "\r\n" + s[2..];
  }

  lemma {:induction false} JoinSplitAtChar(s: string)
    requires s != [] && !(|s| >= 2 && s[0] == '\r' && s[1] == '\n')
    requires JoinCrlf(SplitCrlf(s[1..])) == s[1..]
    ensures JoinCrlf(SplitCrlf(s)) == s
  {
    var rest := SplitCrlf(s[1..]);
    var parts := SplitCrlf(s);
    var head := [s[0]];
    assert parts == [head + rest[0]] + rest[1..];
    if |rest| == 1 {
      assert parts == [head + rest[0]];
      assert JoinCrlf(parts) == head + JoinCrlf(rest);
    } else {
      var tail := JoinCrlf(rest[1..]);
      assert parts[1..] == rest[1..];
      assert JoinCrlf(rest) == rest[0] + "\r\n" + tail;
      calc {
        JoinCrlf(parts);
        (head + rest[0]) + "\r\n" + tail;
        { assert (head + rest[0]) + "\r\n" + tail == head + (rest[0] + "\r\n" + tail); }
        head + JoinCrlf(rest);
      }
    }
    assert s == head + s[1..];
  }

  predicate AllFree(parts: seq<string>) { forall i :: 0 <= i < |parts| ==> NoCrlf(parts[i]) }

  /** No piece holds the separator. */
  lemma {:induction false} SplitCrlfPiecesFree(s: string)
    ensures AllFree(SplitCrlf(s))
    decreases |s|
  {
    if s == [] {
    } else if |s| >= 2 && s[0] == '\r' && s[1] == '\n' {
      SplitCrlfPiecesFree(s[2..]);
      var parts := SplitCrlf(s);
      assert parts == [""] + SplitCrlf(s[2..]);
      assert forall i :: 1 <= i < |parts| ==> parts[i] == SplitCrlf(s[2..])[i - 1];
    } else {
      SplitCrlfPiecesFree(s[1..]);
      PiecesFreeAtChar(s);
    }
  }

  lemma {:induction false} NoCrlfCons(c: char, q: string)
    requires NoCrlf(q)
    requires q != [] ==> !(c == '\r' && q[0] == '\n')
    ensures NoCrlf([c] + q)
  {
    var p := [c] + q;
    forall i | 0 <= i < |p| - 1 ensures !(p[i] == '\r' && p[i + 1] == '\n') {
      if i > 0 {
        assert p[i] == q[i - 1] && p[i + 1] == q[i];
      }
    }
  }

  lemma {:induction false} PiecesFreeAtChar(s: string)
    requires s != [] && !(|s| >= 2 && s[0] == '\r' && s[1] == '\n')
    requires AllFree(SplitCrlf(s[1..]))
    ensures AllFree(SplitCrlf(s))
  {
    var rest := SplitCrlf(s[1..]);
    var parts := SplitCrlf(s);
    assert parts == [[s[0]] + rest[0]] + rest[1..];
    assert NoCrlf(rest[0]);
    if rest[0] != [] {
      assert rest[0][0] == s[1];
    }
    NoCrlfCons(s[0], rest[0]);
    forall i | 0 <= i < |parts| ensures NoCrlf(parts[i]) {
      if i > 0 {
        assert parts[i] == rest[i];
      }
    }
  }

  /** A line whose `trim()` is empty: by `Text.TrimEmptyIffBlank`, one made
      of white space only. */
  predicate Blank(line: string) { forall i :: 0 <= i < |line| ==> IsSpace(line[i]) }

  /** `filter(line => line.trim() !== '')`. */
  function NonBlank(lines: seq<string>): (kept: seq<string>)
    ensures |kept| <= |lines|
  {
    if lines == [] then []
    else (if Blank(lines[0]) then [] else [lines[0]]) + NonBlank(lines[1..])
  }

  /** Filtering keeps order: it acts on each part of a concatenation alone. */
  lemma {:induction false} NonBlankAppend(a: seq<string>, b: seq<string>)
    ensures NonBlank(a + b) == NonBlank(a) + NonBlank(b)
    decreases |a|
  {
    if a != [] {
      assert (a + b)[1..] == a[1..] + b;
      NonBlankAppend(a[1..], b);
    } else {
      assert a + b == b;
    }
  }

  /** Nothing that is not blank is dropped. */
  lemma {:induction false} NonBlankKeepsLines(lines: seq<string>)
    ensures (forall i :: 0 <= i < |lines| ==> !Blank(lines[i])) ==> NonBlank(lines) == lines
    ensures forall i :: 0 <= i < |lines| && !Blank(lines[i]) ==> lines[i] in NonBlank(lines)
    decreases |lines|
  {
    if lines != [] {
      NonBlankKeepsLines(lines[1..]);
      assert forall i :: 1 <= i < |lines| ==> lines[i] == lines[1..][i - 1];
    }
  }

  /** Only lines of the input that are not blank are kept. */
  lemma {:induction false} NonBlankKeepsOnlyLines(lines: seq<string>)
    ensures forall x :: x in NonBlank(lines) ==> x in lines && !Blank(x)
    decreases |lines|
  {
    if lines != [] {
      NonBlankKeepsOnlyLines(lines[1..]);
    }
  }

  /** The lines of a textarea as they are stored. */
  function SplitLines(text: string): (lines: seq<string>)
    ensures forall i :: 0 <= i < |lines| ==> !Blank(lines[i]) && NoCrlf(lines[i])
  {
    SplitCrlfPiecesFree(text);
    NonBlankKeepsOnlyLines(SplitCrlf(text));
    NonBlank(SplitCrlf(text))
  }

  /** A textarea whose lines are all non-blank gives back exactly its lines;
      an empty list joins to the empty text, whose one empty piece is blank. */
  lemma SplitLinesOfJoined(lines: seq<string>)
    requires forall i :: 0 <= i < |lines| ==> !Blank(lines[i]) && NoCrlf(lines[i])
    ensures SplitLines(JoinCrlf(lines)) == lines
  {
    if lines == [] {
      assert SplitCrlf("") == [""];
      assert Blank("");
      assert NonBlank([""]) == [] + NonBlank([]);
    } else {
      SplitJoinCrlf(lines);
      NonBlankKeepsLines(lines);
    }
  }

  lemma {:induction false} SplitJoinCrlf(lines: seq<string>)
    requires |lines| >= 1
    requires forall i :: 0 <= i < |lines| ==> NoCrlf(lines[i])
    ensures SplitCrlf(JoinCrlf(lines)) == lines
    decreases |lines|
  {
    if |lines| == 1 {
      SplitCrlfOfFree(lines[0], "");
      assert lines[0] + "" == lines[0];
      assert lines == [lines[0]];
    } else {
      forall i | 0 <= i < |lines[1..]| ensures NoCrlf(lines[1..][i]) {
        assert lines[1..][i] == lines[i + 1];
      }
      SplitJoinCrlf(lines[1..]);
      SplitJoinCrlfStep(lines);
    }
  }

  /** One step of the above: the first line, then the split of the rest. */
  lemma {:induction false} SplitJoinCrlfStep(lines: seq<string>)
    requires |lines| >= 2 && NoCrlf(lines[0])
    requires SplitCrlf(JoinCrlf(lines[1..])) == lines[1..]
    ensures SplitCrlf(JoinCrlf(lines)) == lines
  {
    var tail := JoinCrlf(lines[1..]);
    SplitCrlfOfFree(lines[0], "\r\n" + tail);
    assert ("\r\n" + tail)[2..] == tail;
    assert JoinCrlf(lines) == lines[0] + ("\r\n" + tail);
    assert lines == [lines[0]] + lines[1..];
  }

  /** Splitting `p + rest`, where `p` holds no "\r\n" and `rest` is empty or
      starts with "\r\n", puts `p` first (and, when `rest` is empty, alone). */
  lemma {:induction false} SplitCrlfOfFree(p: string, rest: string)
    requires NoCrlf(p)
    requires rest == [] || (|rest| >= 2 && rest[0] == '\r' && rest[1] == '\n')
    ensures rest == [] ==> SplitCrlf(p + rest) == [p]
    ensures rest != [] ==> SplitCrlf(p + rest) == [p] + SplitCrlf(rest[2..])
    decreases |p|
  {
    var s := p + rest;
    if p == [] {
      assert s == rest;
    } else {
      assert NoCrlf(p[1..]) by {
        assert forall i :: 0 <= i < |p[1..]| ==> p[1..][i] == p[i + 1];
      }
      SplitCrlfOfFree(p[1..], rest);
      assert s[1..] == p[1..] + rest;
      assert !(|s| >= 2 && s[0] == '\r' && s[1] == '\n') by {
        if |p| >= 2 { assert s[1] == p[1]; }
        else { assert s[1..] == rest; }
      }
      assert [p[0]] + p[1..] == p;
    }
  }

  // ---------------------------------------------------------------------
  // Numeric defaults, the shared flag and the image path

  /** `parseFloat(winning_minute) || 0.5`: NaN and 0 are falsy. */
  function WinningMinute(parsed: Option<real>): (m: real)
    ensures m != 0.0
    ensures parsed.Some? && parsed.value != 0.0 ==> m == parsed.value
    ensures parsed.None? || parsed.value == 0.0 ==> m == 0.5
  {
    if parsed.Some? && parsed.value != 0.0 then parsed.value else 0.5
  }

  /** `parseInt(losing_minute) || 1`. */
  function LosingMinute(parsed: Option<int>): (m: int)
    ensures m != 0
    ensures parsed.Some? && parsed.value != 0 ==> m == parsed.value
    ensures parsed.None? || parsed.value == 0 ==> m == 1
  {
    if parsed.Some? && parsed.value != 0 then parsed.value else 1
  }

  /** `is_shared === 'true' ? 1 : 0`. */
  function SharedFlag(isShared: Option<string>): (flag: int)
    ensures flag == 0 || flag == 1
    ensures flag == 1 <==> isShared == Some("true")
  {
    if isShared == Some("true") then 1 else 0
  }

  /** The image of a new recipe: the uploaded file when the form chose an
      upload and a file came with it, otherwise the chosen default. */
  function AddImagePath(imageSource: string, upload: Option<string>, defaultImage: string): (p: string)
    ensures imageSource == "upload" && upload.Some? ==> p == "/uploads/" + upload.value
    ensures !(imageSource == "upload" && upload.Some?) ==> p == defaultImage
  {
    if imageSource == "upload" && upload.Some? then "/uploads/" + upload.value else defaultImage
  }

  /** The image of an updated recipe: an upload with a file wins, the choice
      "default" takes the chosen default, and anything else keeps the old
      image. */
  function UpdateImagePath(oldPath: string, imageSource: string, upload: Option<string>, defaultImage: string): (p: string)
    ensures imageSource == "upload" && upload.Some? ==> p == "/uploads/" + upload.value
    ensures imageSource == "default" ==> p == defaultImage
    ensures imageSource != "default" && !(imageSource == "upload" && upload.Some?) ==> p == oldPath
  {
    if imageSource == "upload" && upload.Some? then "/uploads/" + upload.value
    else if imageSource == "default" then defaultImage
    else oldPath
  }

  /** The data built from a form for the recipe's owner `userId`, with the
      image path already chosen. */
  function FormData(userId: string, form: RecipeForm, imagePath: string): (d: RecipeData)
    ensures d.slug == Slug(form.name, userId)
    ensures d.name == form.name && d.imagePath == imagePath && d.animation == form.animation
    ensures d.ingredients == SplitLines(form.ingredients) && d.instructions == SplitLines(form.instructions)
    ensures d.winningMinute == WinningMinute(form.winningMinute) && d.losingMinute == LosingMinute(form.losingMinute)
    ensures d.isShared == SharedFlag(form.isShared)
    ensures forall i :: 0 <= i < |d.ingredients| ==> !Blank(d.ingredients[i]) && NoCrlf(d.ingredients[i])
    ensures forall i :: 0 <= i < |d.instructions| ==> !Blank(d.instructions[i]) && NoCrlf(d.instructions[i])
    ensures d.winningMinute != 0.0 && d.losingMinute != 0
    ensures d.isShared == 1 <==> form.isShared == Some("true")
  {
    RecipeData(
      Slug(form.name, userId), form.name, imagePath,
      SplitLines(form.ingredients), SplitLines(form.instructions), form.animation,
      WinningMinute(form.winningMinute), LosingMinute(form.losingMinute), SharedFlag(form.isShared))
  }

  // ---------------------------------------------------------------------
  // Access rules

  predicate Owns(user: User, recipe: Recipe) { recipe.userId == user.id }

  /** `showRecipe`, given what the lookup by slug found. */
  function ShowRecipe(user: Option<User>, found: Option<Recipe>): (r: Reply)
    ensures r == Redirect("/") <==> user.None?
    ensures r == Send(404, "Recipe not found") <==> user.Some? && found.None?
    ensures r.Send? && r.status == 403 <==>
      user.Some? && found.Some? && !Owns(user.value, found.value) && found.value.isShared == 0
    ensures r.RenderRecipe? <==>
      user.Some? && found.Some? && (Owns(user.value, found.value) || found.value.isShared != 0)
    ensures r.RenderRecipe? ==> r.recipe == found.value && (r.isOwner <==> Owns(user.value, found.value))
  {
    if user.None? then Redirect("/")
    else if found.None? then Send(404, "Recipe not found")
    else if !Owns(user.value, found.value) && found.value.isShared == 0
    then Send(403, "You do not have permission to view this recipe.")
    else RenderRecipe(found.value, Owns(user.value, found.value))
  }

  /** `showAddRecipeForm`. */
  function ShowAddRecipeForm(user: Option<User>): (r: Reply)
    ensures user.None? <==> r == Redirect("/")
    ensures user.Some? <==> r == RenderForm(None, false, None)
  {
    if user.None? then Redirect("/") else RenderForm(None, false, None)
  }

  /** `addRecipe`: `store` says how the insert of the built data for the
      signed-in user ends. */
  function AddRecipe(user: Option<User>, form: RecipeForm, upload: Option<string>,
                     store: (string, RecipeData) -> StoreResult): (r: Reply)
    ensures r == Send(401, "Unauthorized") <==> user.None?
    ensures r == Redirect("/menu?msg=Recipe%20created%20successfully!") <==>
      user.Some? && store(user.value.id, AddedData(user.value, form, upload)) == Stored
    ensures r == RenderForm(None, false, Some(DuplicateMessage)) <==>
      user.Some? && store(user.value.id, AddedData(user.value, form, upload)) == DuplicateEntry
    ensures r == RenderForm(None, false, Some("Failed to create recipe. Please try again.")) <==>
      user.Some? && store(user.value.id, AddedData(user.value, form, upload)) == OtherFailure
  {
    if user.None? then Send(401, "Unauthorized")
    else
      match store(user.value.id, AddedData(user.value, form, upload))
      case Stored => Redirect("/menu?msg=Recipe%20created%20successfully!")
      case DuplicateEntry => RenderForm(None, false, Some(DuplicateMessage))
      case OtherFailure => RenderForm(None, false, Some("Failed to create recipe. Please try again."))
  }

  /** The data `addRecipe` stores. */
  function AddedData(user: User, form: RecipeForm, upload: Option<string>): (d: RecipeData)
    ensures d.imagePath == AddImagePath(form.imageSource, upload, form.defaultImage)
  {
    FormData(user.id, form, AddImagePath(form.imageSource, upload, form.defaultImage))
  }

  /** `showEditRecipeForm`. */
  function ShowEditRecipeForm(user: Option<User>, found: Option<Recipe>): (r: Reply)
    ensures r == Redirect("/") <==> user.None?
    ensures r == Send(404, "Recipe not found") <==> user.Some? && found.None?
    ensures r == Send(403, "You cannot edit this recipe.") <==>
      user.Some? && found.Some? && !Owns(user.value, found.value)
    ensures r.RenderForm? <==> user.Some? && found.Some? && Owns(user.value, found.value)
    ensures r.RenderForm? ==> r == RenderForm(Some(StoredRow(found.value)), true, None)
  {
    if user.None? then Redirect("/")
    else if found.None? then Send(404, "Recipe not found")
    else if !Owns(user.value, found.value) then Send(403, "You cannot edit this recipe.")
    else RenderForm(Some(StoredRow(found.value)), true, None)
  }

  /** The data `updateRecipe` stores in place of `prior`. */
  function UpdatedData(user: User, prior: Recipe, form: RecipeForm, upload: Option<string>): (d: RecipeData)
    ensures d.imagePath == UpdateImagePath(prior.imagePath, form.imageSource, upload, form.defaultImage)
  {
    FormData(user.id, form, UpdateImagePath(prior.imagePath, form.imageSource, upload, form.defaultImage))
  }

  /** `updateRecipe`: `store` says how the update of row `id` ends. */
  function UpdateRecipe(user: Option<User>, prior: Option<Recipe>, form: RecipeForm, upload: Option<string>,
                        store: (nat, RecipeData) -> StoreResult): (r: Reply)
    ensures r == Send(401, "Unauthorized") <==> user.None?
    ensures r == Send(403, "Unauthorized") <==> user.Some? && (prior.None? || !Owns(user.value, prior.value))
    ensures r.Redirect? <==> (user.Some? && prior.Some? && Owns(user.value, prior.value)
      && store(prior.value.id, UpdatedData(user.value, prior.value, form, upload)) == Stored)
    ensures r.Redirect? ==> r.location == "/recipe/" + UpdatedData(user.value, prior.value, form, upload).slug
    ensures r.RenderForm? <==> (user.Some? && prior.Some? && Owns(user.value, prior.value)
      && store(prior.value.id, UpdatedData(user.value, prior.value, form, upload)) != Stored)
    ensures r.RenderForm? && store(prior.value.id, UpdatedData(user.value, prior.value, form, upload)) == DuplicateEntry
      ==> r == RenderForm(Some(Submitted(prior.value.id, UpdatedData(user.value, prior.value, form, upload))), true, Some(DuplicateMessage))
    ensures r.RenderForm? && store(prior.value.id, UpdatedData(user.value, prior.value, form, upload)) == OtherFailure
      ==> r == RenderForm(Some(StoredRow(prior.value)), true, Some("Failed to update recipe."))
  {
    if user.None? then Send(401, "Unauthorized")
    else if prior.None? || !Owns(user.value, prior.value) then Send(403, "Unauthorized")
    else
      var data := UpdatedData(user.value, prior.value, form, upload);
      match store(prior.value.id, data)
      case Stored => Redirect("/recipe/" + data.slug)
      case DuplicateEntry => RenderForm(Some(Submitted(prior.value.id, data)), true, Some(DuplicateMessage))
      case OtherFailure => RenderForm(Some(StoredRow(prior.value)), true, Some("Failed to update recipe."))
  }

  /** `deleteRecipe`: `deleted` says whether the store's delete of the
      recipe resolves; when it rejects, the handler sends nothing. */
  function DeleteRecipe(user: Option<User>, found: Option<Recipe>, deleted: bool): (r: Reply)
    ensures r == Send(401, "Unauthorized") <==> user.None?
    ensures r == Send(403, "Unauthorized") <==> user.Some? && (found.None? || !Owns(user.value, found.value))
    ensures r == Redirect("/menu?msg=Recipe%20deleted%20successfully.") <==>
      user.Some? && found.Some? && Owns(user.value, found.value) && deleted
    ensures r == NoReply <==> user.Some? && found.Some? && Owns(user.value, found.value) && !deleted
  {
    if user.None? then Send(401, "Unauthorized")
    else if found.None? || !Owns(user.value, found.value) then Send(403, "Unauthorized")
    else if deleted then Redirect("/menu?msg=Recipe%20deleted%20successfully.")
    else NoReply
  }

  /** Whoever may open the edit form, or have an update or a delete carried
      out, is the owner, and may also view the recipe, as its owner. */
  lemma ChangesAreForOwnersOnly(user: Option<User>, found: Option<Recipe>, form: RecipeForm, upload: Option<string>,
                                store: (nat, RecipeData) -> StoreResult, deleted: bool)
    ensures ShowEditRecipeForm(user, found).RenderForm? ==> ShowRecipe(user, found) == RenderRecipe(found.value, true)
    ensures UpdateRecipe(user, found, form, upload, store).Redirect? ==> ShowRecipe(user, found) == RenderRecipe(found.value, true)
    ensures DeleteRecipe(user, found, deleted).Redirect? ==> ShowRecipe(user, found) == RenderRecipe(found.value, true)
  {
  }

  /** An unknown slug is "not found" for the edit form but "unauthorized"
      for update and delete. */
  lemma UnknownRecipeReplies(user: User, form: RecipeForm, upload: Option<string>,
                             store: (nat, RecipeData) -> StoreResult, deleted: bool)
    ensures ShowEditRecipeForm(Some(user), None).status == 404
    ensures UpdateRecipe(Some(user), None, form, upload, store).status == 403
    ensures DeleteRecipe(Some(user), None, deleted).status == 403
  {
  }
}
