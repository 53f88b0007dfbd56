/** The page's content selector: its state (mode, résumé text, last roast,
    last headline) and the four user actions that change it. Each action is
    a pure function from the old state to the new one; the random index the
    page would draw is an explicit argument. */
module Selector {
  import opened Content

  datatype Option<T> = None | Some(value: T)

  datatype State = State(mode: Mode, resumeText: string, roast: Option<string>, headline: Option<string>)

  /** The state the page starts in: fun mode, an empty résumé box, nothing
      generated yet. */
  function Init(): (s: State)
    ensures s.mode == Fun
    ensures s.resumeText == []
    ensures s.roast == None && s.headline == None
  {
    State(Fun, "", None, None)
  }

  /** A click on the mode switch: the switch reports the negation of the
      current mode, and only the mode changes. */
  function Toggle(s: State): (r: State)
    ensures r.mode != s.mode
    ensures r.resumeText == s.resumeText
    ensures r.roast == s.roast && r.headline == s.headline
  {
    s.(mode := Flip(s.mode))
  }

  /** An edit of the résumé box: the text is stored as typed, with no
      validation, and nothing else changes. */
  function SetResumeText(s: State, text: string): (r: State)
    ensures r.resumeText == text
    ensures r.mode == s.mode
    ensures r.roast == s.roast && r.headline == s.headline
  {
    s.(resumeText := text)
  }

  /** Two clicks on the switch restore the state exactly. */
  lemma ToggleTwice(s: State)
    ensures Toggle(Toggle(s)) == s
  {
  }

  /** Only the last edit of the résumé box is kept, so repeating an edit
      changes nothing. */
  lemma SetResumeTextLastWins(s: State, a: string, b: string)
    ensures SetResumeText(SetResumeText(s, a), b) == SetResumeText(s, b)
    ensures SetResumeText(SetResumeText(s, b), b) == SetResumeText(s, b)
  {
  }

  // ---------------------------------------------------------------------
  // Headlines

  /** The mode whose headline pool holds `h`, if any. */
  function HeadlineModeOf(h: string): (r: Option<Mode>)
    ensures forall m :: r == Some(m) <==> h in HeadlinePool(m)
  {
    if h in HeadlineIdeasFun then Some(Fun)
    else if h in HeadlineIdeasSerious then Some(Serious)
    else None
  }

  /** A click on the headline button: entry `i` of the current mode's pool
      becomes the headline; mode, résumé text and roast stay as they were. */
  function GenerateHeadline(s: State, i: nat): (r: State)
    requires i < |HeadlinePool(s.mode)|
    ensures r.headline.Some? && r.headline.value in HeadlinePool(s.mode)
    ensures HeadlineModeOf(r.headline.value) == Some(s.mode)
    ensures r.mode == s.mode && r.resumeText == s.resumeText && r.roast == s.roast
  {
    s.(headline := Some(RandomPick(HeadlinePool(s.mode), i)))
  }

  /** Every headline of the current mode's pool is the outcome of some
      click. */
  lemma GenerateHeadlineCovers(s: State, h: string)
    requires h in HeadlinePool(s.mode)
    ensures exists i: nat :: i < |HeadlinePool(s.mode)| && GenerateHeadline(s, i).headline == Some(h)
  {
    var i :| 0 <= i < |HeadlinePool(s.mode)| && HeadlinePool(s.mode)[i] == h;
    assert GenerateHeadline(s, i).headline == Some(h);
  }

  // ---------------------------------------------------------------------
  // Roasts

  /** The three fragments of a roast and the mode they were drawn for. */
  datatype RoastParts = RoastParts(mode: Mode, intro: string, body: string, tag: string)

  /** The displayed roast: intro, line and glyph joined by single spaces.
      The text opens with the intro and a space, closes with a space and the
      glyph, and holds the line in between. */
  function Compose(p: RoastParts): (text: string)
    ensures |text| == |p.intro| + |p.body| + |p.tag| + 2
    ensures text[..|p.intro| + 1] == p.intro + " "
    ensures text[|p.intro| + 1 .. |p.intro| + 1 + |p.body|] == p.body
    ensures text[|p.intro| + 1 + |p.body|..] == " " + p.tag
  {
    p.intro + " " + p.body + " " + p.tag
  }

  /** All three fragments come from the sources of the one mode `p.mode`. */
  predicate FromPools(p: RoastParts)
  {
    p.intro in Intros(p.mode) && p.body in RoastPool(p.mode) && p.tag in Tags(p.mode)
  }

  /** `text` is a roast the page can show for mode `m`. */
  ghost predicate IsRoastOf(m: Mode, text: string)
  {
    exists p :: FromPools(p) && p.mode == m && Compose(p) == text
  }

  predicate IsSuffix(t: string, text: string)
  {
    |t| <= |text| && text[|text| - |t|..] == t
  }

  /** The first intro of `intros` that `text` starts with, followed by a
      space. */
  function FindIntro(intros: seq<string>, text: string): (r: Option<string>)
    ensures r.Some? ==> r.value in intros && r.value + " " <= text
    ensures r.None? ==> forall e :: e in intros ==> !(e + " " <= text)
  {
    if |intros| == 0 then None
    else if intros[0] + " " <= text then Some(intros[0])
    else FindIntro(intros[1..], text)
  }

  /** The first glyph of `tags` that `text` ends with, preceded by a space. */
  function FindTag(tags: seq<string>, text: string): (r: Option<string>)
    ensures r.Some? ==> r.value in tags && IsSuffix(" " + r.value, text)
    ensures r.None? ==> forall t :: t in tags ==> !IsSuffix(" " + t, text)
  {
    if |tags| == 0 then None
    else if IsSuffix(" " + tags[0], text) then Some(tags[0])
    else FindTag(tags[1..], text)
  }

  /** The mode a displayed roast's closing glyph tells: only serious
      roasts end in the check mark. */
  function GlyphMode(text: string): (m: Mode)
    ensures m == Serious <==> IsSuffix(SeriousTag, text)
  {
    if IsSuffix(SeriousTag, text) then Serious else Fun
  }

  /** Splits `text` into an intro of `intros`, a line of `lines` and a
      glyph of `tags`, tagged with mode `m`: the first intro the text starts
      with and the first glyph it ends with are taken, and the line between
      them must belong to `lines`. */
  function Split(m: Mode, intros: seq<string>, lines: seq<string>, tags: seq<string>, text: string): (r: Option<RoastParts>)
    ensures r.Some? ==> r.value.mode == m && Compose(r.value) == text
    ensures r.Some? ==> r.value.intro in intros && r.value.body in lines && r.value.tag in tags
  {
    var intro := FindIntro(intros, text);
    var tag := FindTag(tags, text);
    if intro.None? || tag.None? then None
    else if |intro.value| + 1 <= |text| - |tag.value| - 1 then
      var body := text[|intro.value| + 1 .. |text| - |tag.value| - 1];
      if body in lines then
        JoinSplit(text, intro.value, tag.value);
        Some(RoastParts(m, intro.value, body, tag.value))
      else None
    else None
  }

  /** Splits a displayed roast back into its mode and fragments; the
      closing glyph decides the mode, whose sources are then used. */
  function DecodeRoast(text: string): (r: Option<RoastParts>)
    ensures r.Some? ==> FromPools(r.value) && Compose(r.value) == text
  {
    var m := GlyphMode(text);
    Split(m, Intros(m), RoastPool(m), Tags(m), text)
  }

  /** A text that starts with `intro` and a space and ends with a space and
      `tag` is the join of the three pieces. */
  lemma JoinSplit(text: string, intro: string, tag: string)
    requires intro + " " <= text && IsSuffix(" " + tag, text)
    requires |intro| + 1 <= |text| - |tag| - 1
    ensures intro + " " + text[|intro| + 1 .. |text| - |tag| - 1] + " " + tag == text
  {
    var a, b := |intro| + 1, |text| - |tag| - 1;
    assert text == text[..a] + text[a..b] + text[b..];
    assert text[..a] == intro + " ";
    assert text[b..] == " " + tag;
  }

  /** The first characters of the entries of `pool` are pairwise
      different. */
  predicate DistinctHeads(pool: seq<string>)
  {
    && (forall a :: 0 <= a < |pool| ==> |pool[a]| > 0)
    && (forall a, b :: 0 <= a < b < |pool| ==> pool[a][0] != pool[b][0])
  }

  /** The last characters of the entries of `pool` are pairwise
      different. */
  predicate DistinctLasts(pool: seq<string>)
  {
    && (forall a :: 0 <= a < |pool| ==> |pool[a]| > 0)
    && (forall a, b :: 0 <= a < b < |pool| ==> pool[a][|pool[a]| - 1] != pool[b][|pool[b]| - 1])
  }

  /** The intros of either mode can be told apart by their first character
      and the glyphs by their last; no fun glyph ends in the check mark. */
  lemma SourcesDistinguishable(m: Mode)
    ensures DistinctHeads(Intros(m))
    ensures DistinctLasts(Tags(m))
    ensures forall t :: t in FunTags ==> |t| > 0 && t[|t| - 1] != SeriousTag[0]
  {
    assert RoastIntros[0][0] == 'S' && RoastIntros[1][0] == 'G' && RoastIntros[2][0] == 'R';
    assert RoastIntros[3][0] == 'O' && RoastIntros[4][0] == 'P';
    assert FunTags[0][0] == '\U{1F525}' && FunTags[1][1] == '\U{FE0F}';
    assert FunTags[2][0] == '\U{1F4BC}' && FunTags[3][0] == '\U{1F9E0}';
    assert |FunTags[0]| == 1 && |FunTags[1]| == 2 && |FunTags[2]| == 1 && |FunTags[3]| == 1;
  }

  lemma {:induction false} FindIntroFinds(intros: seq<string>, x: string, text: string)
    requires DistinctHeads(intros) && x in intros && x + " " <= text
    ensures FindIntro(intros, text) == Some(x)
    decreases |intros|
  {
    if intros[0] != x {
      var b :| 0 <= b < |intros| && intros[b] == x;
      assert intros[0][0] != x[0];
      assert text[0] == x[0];
      assert !(intros[0] + " " <= text);
      assert intros[1..][b - 1] == x;
      FindIntroFinds(intros[1..], x, text);
    }
  }

  lemma {:induction false} FindTagFinds(tags: seq<string>, x: string, text: string)
    requires DistinctLasts(tags) && x in tags && IsSuffix(" " + x, text)
    ensures FindTag(tags, text) == Some(x)
    decreases |tags|
  {
    if tags[0] != x {
      var b :| 0 <= b < |tags| && tags[b] == x;
      var t := tags[0];
      assert t[|t| - 1] != x[|x| - 1];
      assert text[|text| - 1] == (" " + x)[|x|];
      assert !IsSuffix(" " + t, text);
      assert tags[1..][b - 1] == x;
      FindTagFinds(tags[1..], x, text);
    }
  }

  /** The join of three pieces starts with the first and a space, ends with
      a space and the last, and holds the middle piece in between. */
  lemma ComposeShape(p: RoastParts)
    requires |p.tag| > 0
    ensures var text, a := Compose(p), |p.intro| + 1;
      && p.intro + " " <= text
      && IsSuffix(" " + p.tag, text)
      && a <= |text| - |p.tag| - 1
      && text[a..|text| - |p.tag| - 1] == p.body
      && text[|text| - 1] == p.tag[|p.tag| - 1]
  {
    var text := Compose(p);
    var a := |p.intro| + 1;
    var b := |text| - |p.tag| - 1;
    assert text[..a] == p.intro + " ";
    assert text[b..] == " " + p.tag;
    assert text[a..b] == p.body;
  }

  /** A joined roast ends in the check mark exactly when its glyph comes
      from the serious sources. */
  lemma ClosingGlyphTellsMode(p: RoastParts)
    requires p.tag in Tags(p.mode)
    ensures |p.tag| > 0
    ensures IsSuffix(SeriousTag, Compose(p)) <==> p.mode == Serious
  {
    SourcesDistinguishable(p.mode);
    var k :| 0 <= k < |Tags(p.mode)| && Tags(p.mode)[k] == p.tag;
    ComposeShape(p);
  }

  /** When intros differ in their first character and glyphs in their
      last, splitting the join of an intro, a line and a glyph gives them
      back. */
  lemma SplitCompose(p: RoastParts, intros: seq<string>, lines: seq<string>, tags: seq<string>)
    requires DistinctHeads(intros) && DistinctLasts(tags)
    requires p.intro in intros && p.body in lines && p.tag in tags
    ensures Split(p.mode, intros, lines, tags, Compose(p)) == Some(p)
  {
    var text := Compose(p);
    var k :| 0 <= k < |tags| && tags[k] == p.tag;
    ComposeShape(p);
    FindIntroFinds(intros, p.intro, text);
    FindTagFinds(tags, p.tag, text);
    SplitFound(p.mode, intros, lines, tags, text, p.intro, p.body, p.tag);
  }

  /** Once the lookups have found the intro and the glyph, `Split` returns
      them with the line between them. */
  lemma SplitFound(m: Mode, intros: seq<string>, lines: seq<string>, tags: seq<string>, text: string,
                   intro: string, body: string, tag: string)
    requires FindIntro(intros, text) == Some(intro) && FindTag(tags, text) == Some(tag)
    requires |intro| + 1 <= |text| - |tag| - 1
    requires text[|intro| + 1 .. |text| - |tag| - 1] == body && body in lines
    ensures Split(m, intros, lines, tags, text) == Some(RoastParts(m, intro, body, tag))
  {
  }

  /** Decoding a roast built from one mode's sources gives back exactly its
      fragments and mode. */
  lemma DecodeCompose(p: RoastParts)
    requires FromPools(p)
    ensures DecodeRoast(Compose(p)) == Some(p)
  {
    ClosingGlyphTellsMode(p);
    SourcesDistinguishable(p.mode);
    SplitCompose(p, Intros(p.mode), RoastPool(p.mode), Tags(p.mode));
  }

  /** A text is a roast of mode `m` exactly when it decodes to fragments of
      mode `m`; hence no roast is ever a roast of both modes. */
  lemma RoastModeDecided(m: Mode, text: string)
    ensures IsRoastOf(m, text) <==> DecodeRoast(text).Some? && DecodeRoast(text).value.mode == m
    ensures !(IsRoastOf(Fun, text) && IsRoastOf(Serious, text))
  {
    if IsRoastOf(m, text) {
      var p :| FromPools(p) && p.mode == m && Compose(p) == text;
      DecodeCompose(p);
    }
    if DecodeRoast(text).Some? && DecodeRoast(text).value.mode == m {
      assert IsRoastOf(m, text) by {
        var p := DecodeRoast(text).value;
        assert FromPools(p) && p.mode == m && Compose(p) == text;
      }
    }
    if IsRoastOf(Fun, text) && IsRoastOf(Serious, text) {
      var p :| FromPools(p) && p.mode == Fun && Compose(p) == text;
      var q :| FromPools(q) && q.mode == Serious && Compose(q) == text;
      DecodeCompose(p);
      DecodeCompose(q);
    }
  }

  /** The fragments a click on the roast button draws: intro `i` and glyph
      `k` in fun mode, the fixed intro and check mark in serious mode, and
      line `j` of the current mode's pool. */
  function RoastDraw(m: Mode, i: nat, j: nat, k: nat): (p: RoastParts)
    requires m.Fun? ==> i < |RoastIntros| && k < |FunTags|
    requires j < |RoastPool(m)|
    ensures FromPools(p) && p.mode == m
    ensures p.body == RoastPool(m)[j]
    ensures m == Fun ==> p.intro == RoastIntros[i] && p.tag == FunTags[k]
    ensures m == Serious ==> p.intro == SeriousIntro && p.tag == SeriousTag
  {
    var intro := if m.Fun? then RandomPick(RoastIntros, i) else SeriousIntro;
    var body := RandomPick(RoastPool(m), j);
    var tag := if m.Fun? then RandomPick(FunTags, k) else SeriousTag;
    RoastParts(m, intro, body, tag)
  }

  /** A click on the roast button: the roast becomes the join of the drawn
      fragments, all of the current mode; the résumé text is neither read
      nor changed, and mode and headline stay as they were. */
  function GenerateRoast(s: State, i: nat, j: nat, k: nat): (r: State)
    requires s.mode.Fun? ==> i < |RoastIntros| && k < |FunTags|
    requires j < |RoastPool(s.mode)|
    ensures r.roast.Some? && IsRoastOf(s.mode, r.roast.value)
    ensures DecodeRoast(r.roast.value) == Some(RoastDraw(s.mode, i, j, k))
    ensures r.mode == s.mode && r.resumeText == s.resumeText && r.headline == s.headline
  {
    var p := RoastDraw(s.mode, i, j, k);
    DecodeCompose(p);
    s.(roast := Some(Compose(p)))
  }

  /** Every roast of the current mode is the outcome of some click. */
  lemma GenerateRoastCovers(s: State, text: string)
    requires IsRoastOf(s.mode, text)
    ensures exists i: nat, j: nat, k: nat ::
              && (s.mode.Fun? ==> i < |RoastIntros| && k < |FunTags|)
              && j < |RoastPool(s.mode)|
              && GenerateRoast(s, i, j, k).roast == Some(text)
  {
    var p :| FromPools(p) && p.mode == s.mode && Compose(p) == text;
    var i: nat, k: nat := 0, 0;
    if s.mode.Fun? {
      i :| 0 <= i < |RoastIntros| && RoastIntros[i] == p.intro;
      k :| 0 <= k < |FunTags| && FunTags[k] == p.tag;
    }
    var j :| 0 <= j < |RoastPool(s.mode)| && RoastPool(s.mode)[j] == p.body;
    assert RoastDraw(s.mode, i, j, k) == p;
    assert GenerateRoast(s, i, j, k).roast == Some(text);
  }

  /** The roast does not depend on what is in the résumé box. */
  lemma RoastIgnoresResumeText(s: State, text: string, i: nat, j: nat, k: nat)
    requires s.mode.Fun? ==> i < |RoastIntros| && k < |FunTags|
    requires j < |RoastPool(s.mode)|
    ensures GenerateRoast(SetResumeText(s, text), i, j, k).roast == GenerateRoast(s, i, j, k).roast
  {
  }

  /** With every random draw at index 0, the first roast of a session is
      the first intro, the first fun line and the flame, joined by spaces.
      (The expected text is written as its literal pieces: the verifier does
      not evaluate joins of long string literals.) */
  lemma FirstFunRoast()
    ensures GenerateRoast(Init(), 0, 0, 0).roast
         == Some("Spicy take:" + " "
                 + "Your résumé objective says ‘seeking growth opportunities.’ So does every houseplant."
                 + " " + "\U{1F525}")
  {
  }

  /** With every random draw at index 0, a roast in serious mode is the
      fixed intro, the first serious line and the check mark. */
  lemma FirstSeriousRoast()
    ensures GenerateRoast(Toggle(Init()), 0, 0, 0).roast
         == Some("Suggestion:" + " "
                 + "Tighten your summary into 2–3 outcome-focused lines tailored to a target role."
                 + " " + "\U{2705}")
  {
  }

  /** With the draw at index 0, the headline is the first entry of the
      current mode's pool. */
  lemma FirstHeadlines()
    ensures GenerateHeadline(Init(), 0).headline
         == Some("Vision Realizer | KPI Whisperer | Spreadsheet Influencer")
    ensures GenerateHeadline(Toggle(Init()), 0).headline
         == Some("Senior Software Engineer | Building secure, scalable systems | Python, Go, AWS")
  {
  }
}
