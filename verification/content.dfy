/** The fixed copy of the coaching page: the two copy modes, the constant
    string pools each mode draws from, and the pick-one-entry operation.
    The pools never change after start-up. */
module Content {

  /** The page's two-valued copy mode (`funMode` true is `Fun`). */
  datatype Mode = Fun | Serious

  /** The mode the switch moves to when clicked in mode `m`. */
  function Flip(m: Mode): (r: Mode)
    ensures r != m
  {
    if m.Fun? then Serious else Fun
  }

  const HeadlineIdeasFun: seq<string> := [
    "Vision Realizer | KPI Whisperer | Spreadsheet Influencer",
    "Tech Visionary • Meme Curator • Evangelist of Clean Code & Dirty Chai",
    "Revenue Wrangler | Thought-Leadership Enthusiast | PPT Magician",
    "Operations Overlord | Chaos Tamer | Bullet-Point Poet",
    "People-Person™ | Culture Add (Not Fit) | Coffee-Into-Strategy Converter"
  ]

  const HeadlineIdeasSerious: seq<string> := [
    "Senior Software Engineer | Building secure, scalable systems | Python, Go, AWS",
    "Product Manager | Zero-to-one builder | Growth & Experimentation | B2B SaaS",
    "Operations Leader | Process optimization, KPI design, and cross-functional delivery",
    "Educator | Student-centered instruction | Curriculum design & classroom culture",
    "Business Development | Strategic partnerships, GTM, and revenue acceleration"
  ]

  const RoastIntros: seq<string> := [
    "Spicy take:", "Gentle nudge:", "Recruiter cry-count:", "Objective feedback (with love):", "Plot twist:"
  ]

  const RoastLinesFun: seq<string> := [
    "Your résumé objective says ‘seeking growth opportunities.’ So does every houseplant.",
    "Listing ‘Microsoft Word’ in 2025 is bold. Like listing ‘breathing.’",
    "12 different fonts? A typographic multiverse. Choose one timeline.",
    "‘Results-oriented’ with zero results… it’s giving mystery.",
    "Bullets start with verbs, not vibes. ‘Responsible for’ = snooze.",
    "If everything is ‘Led…’ what did your team do?",
    "Achievements without numbers are just anecdotes.",
    "Two pages, no metrics. That’s a memoir, bestie."
  ]

  const RoastLinesSerious: seq<string> := [
    "Tighten your summary into 2–3 outcome-focused lines tailored to a target role.",
    "Start bullets with strong verbs and include a metric: ‘Increased X by Y% through Z.’",
    "Group skills by theme (Languages, Frameworks, Tools) and remove generic ones.",
    "Prioritize recent, relevant experience; demote or compress older roles.",
    "Replace ‘responsible for’ with action + impact; avoid passive phrasing.",
    "Quantify scope: team size, budget, ARR, DAUs, throughput, student outcomes.",
    "Align keywords to target job descriptions to pass ATS scans."
  ]

  /** The trailing glyphs of a fun-mode roast. The chili is two code points
      (U+1F336 followed by the emoji presentation selector U+FE0F). */
  const FunTags: seq<string> := ["\U{1F525}", "\U{1F336}\U{FE0F}", "\U{1F4BC}", "\U{1F9E0}"]

  /** The fixed intro and glyph of a serious-mode roast. */
  const SeriousIntro: string := "Suggestion:"
  const SeriousTag: string := "\U{2705}"

  /** Picks entry `i` of `pool`; `i` stands for the value the page derives
      from its random number generator, which always lies in range. */
  function RandomPick(pool: seq<string>, i: nat): (r: string)
    requires i < |pool|
    ensures r in pool
  {
    pool[i]
  }

  /** Every entry of a pool is the outcome of some in-range pick. */
  lemma PickCovers(pool: seq<string>, x: string)
    requires x in pool
    ensures exists i: nat :: i < |pool| && RandomPick(pool, i) == x
  {
    var i :| 0 <= i < |pool| && pool[i] == x;
    assert RandomPick(pool, i) == x;
  }

  /** The headline pool the page offers in mode `m`. */
  function HeadlinePool(m: Mode): (pool: seq<string>)
    ensures |pool| == 5
    ensures forall h :: h in pool ==> (h in HeadlineIdeasFun <==> m == Fun)
    ensures forall h :: h in pool ==> (h in HeadlineIdeasSerious <==> m == Serious)
    ensures forall h :: h in HeadlineIdeasFun ==> (h in pool <==> m == Fun)
    ensures forall h :: h in HeadlineIdeasSerious ==> (h in pool <==> m == Serious)
  {
    HeadlinePoolsDisjoint();
    if m.Fun? then HeadlineIdeasFun else HeadlineIdeasSerious
  }

  /** The roast-line pool the page offers in mode `m`. */
  function RoastPool(m: Mode): (pool: seq<string>)
    ensures |pool| == if m.Fun? then 8 else 7
    ensures forall b :: b in pool ==> (b in RoastLinesFun <==> m == Fun)
    ensures forall b :: b in pool ==> (b in RoastLinesSerious <==> m == Serious)
    ensures forall b :: b in RoastLinesFun ==> (b in pool <==> m == Fun)
    ensures forall b :: b in RoastLinesSerious ==> (b in pool <==> m == Serious)
  {
    RoastPoolsDisjoint();
    if m.Fun? then RoastLinesFun else RoastLinesSerious
  }

  /** The intros a roast may open with in mode `m`: a pick from five in fun
      mode, the single fixed intro in serious mode. */
  function Intros(m: Mode): (pool: seq<string>)
    ensures |pool| == if m.Fun? then 5 else 1
    ensures SeriousIntro in pool <==> m == Serious
    ensures forall x :: x in RoastIntros ==> (x in pool <==> m == Fun)
    ensures forall x :: x in pool ==> (x in RoastIntros <==> m == Fun)
  {
    SeriousFragmentsAreNotFun();
    if m.Fun? then RoastIntros else [SeriousIntro]
  }

  /** The glyphs a roast may close with in mode `m`. */
  function Tags(m: Mode): (pool: seq<string>)
    ensures |pool| == if m.Fun? then 4 else 1
    ensures SeriousTag in pool <==> m == Serious
    ensures forall t :: t in FunTags ==> (t in pool <==> m == Fun)
    ensures forall t :: t in pool ==> (t in FunTags <==> m == Fun)
  {
    SeriousFragmentsAreNotFun();
    if m.Fun? then FunTags else [SeriousTag]
  }

  /** No headline belongs to both modes. */
  lemma HeadlinePoolsDisjoint()
    ensures forall h :: h in HeadlineIdeasFun ==> h !in HeadlineIdeasSerious
    ensures forall h :: h in HeadlineIdeasSerious ==> h !in HeadlineIdeasFun
  {
  }

  /** No roast line belongs to both modes. */
  lemma RoastPoolsDisjoint()
    ensures forall b :: b in RoastLinesFun ==> b !in RoastLinesSerious
    ensures forall b :: b in RoastLinesSerious ==> b !in RoastLinesFun
  {
  }

  /** Neither fixed serious fragment is also a fun-mode fragment. */
  lemma SeriousFragmentsAreNotFun()
    ensures SeriousIntro !in RoastIntros
    ensures SeriousTag !in FunTags
  {
    assert RoastIntros[0][1] != SeriousIntro[1];
  }

  /** The pool sizes of the page, all non-empty, so every pick has a
      candidate. */
  lemma PoolSizes()
    ensures |HeadlineIdeasFun| == 5 && |HeadlineIdeasSerious| == 5
    ensures |RoastIntros| == 5 && |FunTags| == 4
    ensures |RoastLinesFun| == 8 && |RoastLinesSerious| == 7
  {
  }
}
