/** The display helpers of a project card on the projects page: the colour
    dot of the repository's language, the topic badges and the description
    line. The page markup itself is not modelled. */
module Projects {
  import opened Wrappers
  import opened Strings
  import opened Seqs

  /** `getLanguageColor`'s table. */
  const LanguageColors: map<string, string> := map[
    "JavaScript" := "#f1e05a",
    "TypeScript" := "#2b7489",
    "Python" := "#3572A5",
    "Java" := "#b07219",
    "C++" := "#f34b7d",
    "C" := "#555555",
    "Go" := "#00ADD8",
    "Rust" := "#dea584",
    "PHP" := "#4F5D95",
    "Swift" := "#ffac45",
    "Kotlin" := "#F18E33",
    "HTML" := "#e34c26",
    "CSS" := "#1572B6",
    "Vue" := "#2c3e50",
    "React" := "#61dafb"]

  const DefaultColor: string := "#8b5cf6"

  const NoDescription: string := "No description available"

  /** How many topics get a badge of their own. */
  const ShownTopics: nat := 3

  /** `colors[language] || '#8b5cf6'`: the table's colour for a language it
      names (every colour in it is a non-empty string), the default for any
      other, case variants included. */
  function LanguageColor(language: string): (color: string)
    ensures language in LanguageColors ==> color == LanguageColors[language]
    ensures language !in LanguageColors ==> color == DefaultColor
    ensures color != ""
  {
    if language in LanguageColors && LanguageColors[language] != "" then LanguageColors[language]
    else DefaultColor
  }

  /** The colours of the languages of the web. */
  lemma WebLanguageColors()
    ensures LanguageColor("JavaScript") == "#f1e05a" && LanguageColor("TypeScript") == "#2b7489"
    ensures LanguageColor("PHP") == "#4F5D95" && LanguageColor("HTML") == "#e34c26"
    ensures LanguageColor("CSS") == "#1572B6" && LanguageColor("Vue") == "#2c3e50"
    ensures LanguageColor("React") == "#61dafb"
  {
  }

  /** The colours of the other languages of the table. */
  lemma OtherLanguageColors()
    ensures LanguageColor("Python") == "#3572A5" && LanguageColor("Java") == "#b07219"
    ensures LanguageColor("C++") == "#f34b7d" && LanguageColor("C") == "#555555"
    ensures LanguageColor("Go") == "#00ADD8" && LanguageColor("Rust") == "#dea584"
    ensures LanguageColor("Swift") == "#ffac45" && LanguageColor("Kotlin") == "#F18E33"
  {
  }

  /** The lookup is exact: a case variant of a listed language is a
      language the table does not know. */
  lemma LanguageColorIsCaseSensitive()
    ensures LanguageColor("kotlin") == DefaultColor
    ensures LanguageColor("typescript") == DefaultColor
  {
    assert "kotlin" !in LanguageColors && "typescript" !in LanguageColors;
  }

  /** `{repo.language && <dot coloured getLanguageColor(repo.language)>}`:
      a dot only for a present, non-empty language, always in a real colour:
      the table's for a language it names, the default for any other. */
  function LanguageDot(language: Option<string>): (dot: Option<string>)
    ensures dot.Some? <==> Truthy(language)
    ensures dot.Some? ==> dot.value != ""
    ensures Truthy(language) && language.value in LanguageColors ==> dot == Some(LanguageColors[language.value])
    ensures Truthy(language) && language.value !in LanguageColors ==> dot == Some(DefaultColor)
  {
    if Truthy(language) then Some(LanguageColor(language.value)) else None
  }

  /** `repo.description || "No description available"` */
  function DescriptionText(description: Option<string>): (text: string)
    ensures text != ""
    ensures Truthy(description) ==> text == description.value
    ensures !Truthy(description) ==> text == NoDescription
  {
    if Truthy(description) then description.value else NoDescription
  }

  /** The topic block of a card: a badge for each of the first topics and,
      when there are more, the count shown as `+N more`. */
  datatype TopicBadges = TopicBadges(shown: seq<string>, more: Option<nat>)

  /** `repo.topics.length > 0 && (topics.slice(0, 3) …, length > 3 && +{length - 3} more)`.
      No block at all for a repository without topics. */
  function TopicBlock(topics: seq<string>): (block: Option<TopicBadges>)
    ensures block.None? <==> topics == []
    ensures block.Some? ==> block.value.shown <= topics
    ensures block.Some? ==> |block.value.shown| == Min(ShownTopics, |topics|)
    ensures block.Some? ==> (block.value.more.Some? <==> |topics| > ShownTopics)
    ensures block.Some? ==> |block.value.shown| + block.value.more.GetOr(0) == |topics|
  {
    if |topics| > 0 then
      Some(TopicBadges(
        shown := topics[..Min(ShownTopics, |topics|)],
        more := if |topics| > ShownTopics then Some(|topics| - ShownTopics) else None))
    else None
  }

  /** The badges and the `+N more` count together account for every topic:
      the shown topics followed by the hidden ones are the topic list. */
  lemma TopicBadgesAccountForAll(topics: seq<string>)
    requires topics != []
    ensures var b := TopicBlock(topics).value;
      b.shown + topics[|b.shown|..] == topics && |topics[|b.shown|..]| == b.more.GetOr(0)
  {
  }
}
