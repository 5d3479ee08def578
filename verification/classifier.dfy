/**
 The response classifier: one cell in, one sentiment label out, decided by
 ordered keyword checks on the (already lower-cased) text.
 */
module Classifier {
  import opened Text
  import opened Tables

  datatype Label = Support | Oppose | Neutral | NoResponse

  /** The text the application stores for each label. */
  function LabelName(l: Label): string
  {
    match l
    case Support => "Support"
    case Oppose => "Oppose"
    case Neutral => "Neutral"
    case NoResponse => "No Response"
  }

  /** The four stored texts, in the order the rules are tried. */
  const LabelNames: seq<string> := [LabelName(Support), LabelName(Oppose), LabelName(Neutral), LabelName(NoResponse)]

  /** Distinct labels are stored as distinct texts. */
  lemma LabelNameInjective(a: Label, b: Label)
    requires LabelName(a) == LabelName(b)
    ensures a == b
  {
  }

  /** One rule of the reference reading: a label and the keywords that select it. */
  datatype Rule = Rule(verdict: Label, keywords: seq<string>)

  /** The rules in the order the classifier tries them. */
  const Rules: seq<Rule> := [
    Rule(Support, ["support", "beneficial"]),
    Rule(Oppose, ["oppose", "detrimental"]),
    Rule(Neutral, ["neutral", "fine"])
  ]

  /** Some keyword of `words` occurs in `s`. */
  predicate MentionsAny(s: string, words: seq<string>)
    decreases |words|
  {
    |words| > 0 && (Contains(s, words[0]) || MentionsAny(s, words[1..]))
  }

  predicate Fires(rule: Rule, s: string)
  {
    MentionsAny(s, rule.keywords)
  }

  /** Reference reading: the label of the first rule that fires, else `NoResponse`. */
  function FirstMatch(rules: seq<Rule>, s: string): Label
    decreases |rules|
  {
    if |rules| == 0 then NoResponse
    else if Fires(rules[0], s) then rules[0].verdict
    else FirstMatch(rules[1..], s)
  }

  /** The first rule that fires decides the label, whatever later rules say. */
  lemma {:induction false} FirstMatchPicksFirst(rules: seq<Rule>, s: string, i: nat)
    requires i < |rules| && Fires(rules[i], s)
    requires forall j :: 0 <= j < i ==> !Fires(rules[j], s)
    ensures FirstMatch(rules, s) == rules[i].verdict
    decreases i
  {
    if i > 0 {
      assert !Fires(rules[0], s);
      FirstMatchPicksFirst(rules[1..], s, i - 1);
    }
  }

  /** When no rule fires the answer is `NoResponse`. */
  lemma {:induction false} FirstMatchNone(rules: seq<Rule>, s: string)
    requires forall j :: 0 <= j < |rules| ==> !Fires(rules[j], s)
    ensures FirstMatch(rules, s) == NoResponse
    decreases |rules|
  {
    if |rules| > 0 {
      assert !Fires(rules[0], s);
      FirstMatchNone(rules[1..], s);
    }
  }

  /**
   The classifier as the application writes it: a non-text cell is
   "No Response"; a text is checked for the support keywords, then the
   oppose keywords, then the neutral keywords.
   */
  function Classify(c: Cell): (l: Label)
    ensures !c.Str? ==> l == NoResponse
    ensures c.Str? ==> l == FirstMatch(Rules, c.s)
  {
    if c.Str? then
      var s := c.s;
      assert Rules[1..][1..][1..] == [];
      if Contains(s, "support") || Contains(s, "beneficial") then Support
      else if Contains(s, "oppose") || Contains(s, "detrimental") then Oppose
      else if Contains(s, "neutral") || Contains(s, "fine") then Neutral
      else NoResponse
    else NoResponse
  }

  /** `categorize_response`: the label text stored in a derived cell. */
  function CategorizeResponse(c: Cell): (r: string)
    ensures r in LabelNames
    ensures !c.Str? ==> r == "No Response"
    ensures c.Str? ==> r == LabelName(FirstMatch(Rules, c.s))
  {
    LabelName(Classify(c))
  }

  /** A text mentioning a support keyword is "Support", whatever else it mentions. */
  lemma SupportWins(s: string)
    requires Contains(s, "support") || Contains(s, "beneficial")
    ensures Classify(Str(s)) == Support
  {
    assert Fires(Rules[0], s);
    FirstMatchPicksFirst(Rules, s, 0);
  }

  /** "Oppose" exactly when an oppose keyword occurs and no support keyword does. */
  lemma OpposeOnlyWithoutSupport(s: string)
    ensures Classify(Str(s)) == Oppose <==>
              !(Contains(s, "support") || Contains(s, "beneficial")) &&
              (Contains(s, "oppose") || Contains(s, "detrimental"))
  {
  }

  /** "Neutral" exactly when a neutral keyword occurs and none of the four earlier ones does. */
  lemma NeutralOnlyWithoutEarlier(s: string)
    ensures Classify(Str(s)) == Neutral <==>
              !(Contains(s, "support") || Contains(s, "beneficial")) &&
              !(Contains(s, "oppose") || Contains(s, "detrimental")) &&
              (Contains(s, "neutral") || Contains(s, "fine"))
  {
  }

  /** A text with none of the six keywords is "No Response", and only such a text is. */
  lemma NoKeywordIsNoResponse(s: string)
    ensures Classify(Str(s)) == NoResponse <==>
              !Contains(s, "support") && !Contains(s, "beneficial") &&
              !Contains(s, "oppose") && !Contains(s, "detrimental") &&
              !Contains(s, "neutral") && !Contains(s, "fine")
  {
  }
}
