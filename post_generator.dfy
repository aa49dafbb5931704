/** The prompt builder of post_generator.py: the length phrase, the fixed instruction block
    and the few-shot examples section. The example corpus is an input sequence of example
    texts (what `get_filtered_posts` returned), so the prompt is a function of its arguments. */
module PostGenerator {
  import opened Wrappers
  import opened Seqs

  /** The length categories the builder knows and their line-count phrases. */
  const Short := "Short"
  const Medium := "Medium"
  const Long := "Long"
  const ShortLines := "1 to 5 lines"
  const MediumLines := "6 to 10 lines"
  const LongLines := "11 to 15 lines"

  /** Line-count phrase for a length category. Any other category falls off the end of
      the Python function, which returns `None`. */
  function LengthStr(length: string): (r: Option<string>)
    ensures r.Some? <==> length == Short || length == Medium || length == Long
    ensures length == Short ==> r == Some(ShortLines)
    ensures length == Medium ==> r == Some(MediumLines)
    ensures length == Long ==> r == Some(LongLines)
  {
    if length == Short then Some(ShortLines)
    else if length == Medium then Some(MediumLines)
    else if length == Long then Some(LongLines)
    else None
  }

  /** Distinct categories get distinct phrases, so the phrase identifies the category. */
  lemma LengthStrInjective(a: string, b: string)
    requires LengthStr(a).Some? && LengthStr(a) == LengthStr(b)
    ensures a == b
  {
  }

  /** Python's rendering of `None` inside an f-string. */
  const NoneText := "None"

  /** How the f-string renders the length phrase. */
  function LengthText(lengthStr: Option<string>): (t: string)
    ensures lengthStr.Some? ==> t == lengthStr.value
    ensures lengthStr.None? ==> t == NoneText
  {
    match lengthStr
    case Some(phrase) => phrase
    case None => NoneText
  }

  /** The two forms of directive 5. */
  const EmojisOn := "5) Add relevant emojis to make the post more engaging"
  const EmojisOff := "5) Do not use any emojis"

  /** Directive 5, chosen by the emoji flag. */
  function EmojiDirective(useEmojis: bool): (r: string)
  {
    if useEmojis then EmojisOn else EmojisOff
  }

  /** The fixed text of the triple-quoted literal between its interpolated values. Every
      line keeps the four spaces of indentation it has in the source. */
  const Opening :=
    "\n    Generate a professional LinkedIn post using the below information. No preamble.\n\n    1) Topic: "
  const LengthLabel := "\n    2) Length: "
  const LanguageLabel := "\n    3) Language: "
  const StyleLine := "\n    4) Style: Professional, engaging, and authentic\n    "
  const BlankLine := "\n    \n"
  /** The two lines about Hinglish; the literal has them for every language. */
  const Clarification :=
    "    If Language is Hinglish then it means it is a mix of Hindi and English. \n    The script for the generated post should always be English.\n"
  const Guidance :=
    "    \n    The post should:\n    - Start with an attention-grabbing hook\n    - Include personal insights or experiences\n    - End with a call to action or thought-provoking question\n    - Be formatted with proper spacing and line breaks\n    "

  /** Positions of the length phrase, the language, the emoji directive and the clarification among the
      pieces of the literal. */
  const LengthPiece := 3
  const LanguagePiece := 5
  const EmojiPiece := 7
  const ClarificationPiece := 9

  /** The triple-quoted literal as consecutive pieces: its fixed text, with each
      interpolated value as a piece of its own. */
  function BasePieces(tag: string, lengthStr: Option<string>, language: string, useEmojis: bool): (r: seq<string>)
  {
    [Opening, tag, LengthLabel, LengthText(lengthStr), LanguageLabel, language, StyleLine,
     EmojiDirective(useEmojis), BlankLine, Clarification, Guidance]
  }

  /** The whole literal: it depends on the tag, the length phrase, the language and the
      emoji flag only. */
  function BaseBlock(tag: string, lengthStr: Option<string>, language: string, useEmojis: bool): (r: string)
  {
    Join(BasePieces(tag, lengthStr, language, useEmojis), "")
  }

  /** Directive 6, appended once when there is at least one example. */
  const ExamplesHeader := "\n\n6) Use the writing style as per the following examples:"

  /** Decimal digits of a natural number, as Python's `str` writes it. */
  function Decimal(n: nat): (r: string)
    ensures |r| >= 1
  {
    if n < 10 then [DigitChar(n)] else Decimal(n / 10) + [DigitChar(n % 10)]
  }

  const Digits := "0123456789"

  function DigitChar(d: nat): (r: char)
    requires d < 10
  {
    Digits[d]
  }

  const ExampleLabel := "\n\n Example "
  const ExampleColon := ": \n\n "

  /** One labelled example; `ordinal` is the 1-based position. */
  function ExampleEntry(ordinal: nat, text: string): (r: string)
  {
    ExampleLabel + Decimal(ordinal) + ExampleColon + text
  }

  /** The entries for `texts`, labelled 1, 2, ... in order. */
  function Entries(texts: seq<string>): (r: string)
  {
    if texts == [] then ""
    else Entries(texts[..|texts| - 1]) + ExampleEntry(|texts|, texts[|texts| - 1])
  }

  /** The examples section: nothing without examples; otherwise directive 6 followed by
      the first two examples at most. */
  function ExampleSection(examples: seq<string>): (r: string)
  {
    if examples == [] then "" else ExamplesHeader + Entries(examples[..Min(2, |examples|)])
  }

  /** The prompt `get_prompt` returns, as a specification of the method below. */
  function Prompt(length: string, language: string, tag: string, useEmojis: bool, examples: seq<string>): (r: string)
  {
    BaseBlock(tag, LengthStr(length), language, useEmojis) + ExampleSection(examples)
  }

  /** One more example text adds one more entry, labelled with its 1-based position. */
  lemma EntriesAppendOne(texts: seq<string>, t: string)
    ensures Entries(texts + [t]) == Entries(texts) + ExampleEntry(|texts| + 1, t)
  {
    assert (texts + [t])[..|texts|] == texts;
  }

  /** The prompt is the literal, then directive 6 when there are examples, then the
      entries of the first two examples at most. */
  lemma PromptShape(length: string, language: string, tag: string, useEmojis: bool, examples: seq<string>)
    ensures Prompt(length, language, tag, useEmojis, examples)
         == BaseBlock(tag, LengthStr(length), language, useEmojis)
            + (if examples == [] then "" else ExamplesHeader)
            + Entries(examples[..Min(2, |examples|)])
  {
    if examples == [] {
      assert examples[..0] == [];
    }
  }

  /** `get_prompt`: the literal, then directive 6 when there are examples, then the
      examples one by one until the loop breaks after the second. */
  method GetPrompt(length: string, language: string, tag: string, useEmojis: bool, examples: seq<string>)
    returns (prompt: string)
    ensures prompt == Prompt(length, language, tag, useEmojis, examples)
  {
    var lengthStr := LengthStr(length);
    prompt := BaseBlock(tag, lengthStr, language, useEmojis);
    ghost var base := prompt;
    if |examples| > 0 {
      prompt := prompt + ExamplesHeader;
    }
    ghost var headed := prompt;
    assert headed == base + (if examples == [] then "" else ExamplesHeader);
    ghost var taken := 0;
    for i := 0 to |examples|
      invariant i <= 1
      invariant taken == i
      invariant prompt == headed + Entries(examples[..i])
    {
      assert examples[..i] + [examples[i]] == examples[..i + 1];
      EntriesAppendOne(examples[..i], examples[i]);
      AppendAssoc(headed, Entries(examples[..i]), ExampleEntry(i + 1, examples[i]));
      prompt := prompt + ExampleEntry(i + 1, examples[i]);
      taken := i + 1;
      if i == 1 {
        break;
      }
    }
    assert taken == Min(2, |examples|);
    PromptShape(length, language, tag, useEmojis, examples);
  }

  /** With no examples the prompt is exactly the literal. */
  lemma NoExamplesPromptIsBase(length: string, language: string, tag: string, useEmojis: bool)
    ensures Prompt(length, language, tag, useEmojis, []) == BaseBlock(tag, LengthStr(length), language, useEmojis)
  {
  }

  /** The literal is always a prefix of the prompt, and what follows it begins with
      directive 6 exactly when there are examples. */
  lemma BaseIsPrefixAndHeaderIffExamples(length: string, language: string, tag: string, useEmojis: bool, examples: seq<string>)
    ensures BaseBlock(tag, LengthStr(length), language, useEmojis) <= Prompt(length, language, tag, useEmojis, examples)
    ensures ExamplesHeader <= Prompt(length, language, tag, useEmojis, examples)[|BaseBlock(tag, LengthStr(length), language, useEmojis)|..]
            <==> |examples| > 0
  {
    var base := BaseBlock(tag, LengthStr(length), language, useEmojis);
    var p := Prompt(length, language, tag, useEmojis, examples);
    assert p[|base|..] == ExampleSection(examples);
  }

  /** The entries of one or two example texts. */
  lemma EntriesOfOneOrTwo(a: string, b: string)
    ensures Entries([a]) == ExampleEntry(1, a)
    ensures Entries([a, b]) == ExampleEntry(1, a) + ExampleEntry(2, b)
  {
    EntriesAppendOne([], a);
    assert [] + [a] == [a];
    EntriesAppendOne([a], b);
    assert [a] + [b] == [a, b];
  }

  /** Exactly min(2, |examples|) examples are appended: the first ones, in order,
      labelled "Example 1" and "Example 2". */
  lemma AtMostTwoExamples(examples: seq<string>)
    ensures |examples| == 1 ==> ExampleSection(examples) == ExamplesHeader + ExampleEntry(1, examples[0])
    ensures |examples| >= 2 ==>
      ExampleSection(examples) == ExamplesHeader + (ExampleEntry(1, examples[0]) + ExampleEntry(2, examples[1]))
  {
    if |examples| == 1 {
      assert examples[..Min(2, |examples|)] == [examples[0]];
      EntriesOfOneOrTwo(examples[0], examples[0]);
    } else if |examples| >= 2 {
      assert examples[..Min(2, |examples|)] == [examples[0], examples[1]];
      EntriesOfOneOrTwo(examples[0], examples[1]);
    }
  }

  /** Examples after the second never reach the prompt. */
  lemma LaterExamplesIgnored(length: string, language: string, tag: string, useEmojis: bool, examples: seq<string>, more: seq<string>)
    requires |examples| >= 2
    ensures Prompt(length, language, tag, useEmojis, examples + more) == Prompt(length, language, tag, useEmojis, examples)
  {
    assert (examples + more)[..2] == examples[..2];
  }

  /** A piece of the literal occurs in the prompt. */
  lemma PieceInPrompt(length: string, language: string, tag: string, useEmojis: bool, examples: seq<string>, k: nat)
    requires k < |BasePieces(tag, LengthStr(length), language, useEmojis)|
    ensures Contains(Prompt(length, language, tag, useEmojis, examples), BasePieces(tag, LengthStr(length), language, useEmojis)[k])
  {
    var pieces := BasePieces(tag, LengthStr(length), language, useEmojis);
    JoinContainsPart(pieces, k);
    ContainsAround("", Join(pieces, ""), ExampleSection(examples), pieces[k]);
    assert "" + Join(pieces, "") + ExampleSection(examples) == Prompt(length, language, tag, useEmojis, examples);
  }

  /** The Hinglish clarification is in the prompt whatever the language is. */
  lemma ClarificationForEveryLanguage(length: string, language: string, tag: string, useEmojis: bool, examples: seq<string>)
    ensures Contains(Prompt(length, language, tag, useEmojis, examples), Clarification)
  {
    PieceInPrompt(length, language, tag, useEmojis, examples, ClarificationPiece);
  }

  /** The directive chosen by the emoji flag is in the prompt, and the two directives differ. */
  lemma EmojiDirectiveInPrompt(length: string, language: string, tag: string, useEmojis: bool, examples: seq<string>)
    ensures Contains(Prompt(length, language, tag, useEmojis, examples), EmojiDirective(useEmojis))
    ensures EmojiDirective(true) != EmojiDirective(false)
  {
    PieceInPrompt(length, language, tag, useEmojis, examples, EmojiPiece);
    assert |EmojiDirective(true)| != |EmojiDirective(false)|;
  }

  /** The length phrase of the category is in the prompt, or "None" for any other value. */
  lemma LengthTextInPrompt(length: string, language: string, tag: string, useEmojis: bool, examples: seq<string>)
    ensures Contains(Prompt(length, language, tag, useEmojis, examples), LengthText(LengthStr(length)))
  {
    PieceInPrompt(length, language, tag, useEmojis, examples, LengthPiece);
  }
}
