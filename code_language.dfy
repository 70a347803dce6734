/**
 * The language of a Notion code block: the first word of a fence's info string, lower-cased,
 * mapped through an alias table and checked against Notion's closed list of languages.
 */
module CodeLanguage {
  import opened Wrappers
  import opened Text
  import opened Tokens

  /** The language names Notion accepts, in the source's order, split in three groups. */
  const ValidLangs: set<string> := LangsAbapToGroovy + LangsHaskellToPowershell + LangsPrologToEnd

  const LangsAbapToGroovy: set<string> := {
    "abap", "agda", "arduino", "assembly", "bash", "basic", "bnf", "c", "c#", "c++", "clojure",
    "coffeescript", "coq", "css", "dart", "dhall", "diff", "docker", "ebnf", "elixir", "elm",
    "erlang", "f#", "flow", "fortran", "gherkin", "glsl", "go", "graphql", "groovy"
  }

  const LangsHaskellToPowershell: set<string> := {
    "haskell", "hcl", "html", "idris", "java", "javascript", "json", "julia", "kotlin", "latex",
    "less", "lisp", "livescript", "llvm ir", "lua", "makefile", "markdown", "markup", "matlab",
    "mathematica", "mermaid", "nix", "notion formula", "objective-c", "ocaml", "pascal", "perl",
    "php", "plain text", "powershell"
  }

  const LangsPrologToEnd: set<string> := {
    "prolog", "protobuf", "purescript", "python", "r", "racket", "reason", "ruby", "rust", "sass",
    "scala", "scheme", "scss", "shell", "smalltalk", "solidity", "sql", "swift", "toml",
    "typescript", "vb.net", "verilog", "vhdl", "visual basic", "webassembly", "xml", "yaml",
    "java/c/c++/c#"
  }

  /** Fence tags that name a language differently from Notion. */
  const AliasMap: map<string, string> := map[
    "dotnetcli" := "shell", "console" := "shell", "log" := "shell", "output" := "shell",
    "t4" := "c#", "tsql" := "sql", "mssql" := "sql", "plsql" := "sql",
    "powershell" := "powershell", "cs" := "c#", "csharp" := "c#",
    "js" := "javascript", "ts" := "typescript", "py" := "python",
    "xml" := "xml", "json" := "json", "html" := "html", "css" := "css",
    "bash" := "bash", "sh" := "bash", "zsh" := "bash"
  ]

  const PlainText := "plain text"

  /** `alias_map.get(lang, lang)`, then the fallback for names Notion does not know. */
  function Normalize(lang: string): (r: string)
    ensures r in ValidLangs
    ensures r == lang || r == PlainText || (lang in AliasMap && r == AliasMap[lang])
  {
    var clean := if lang in AliasMap then AliasMap[lang] else lang;
    if clean in ValidLangs then clean else PlainText
  }

  /** Every alias points at a language Notion accepts, so an alias never falls back. */
  lemma AliasTargetsValid()
    ensures forall a :: a in AliasMap ==> AliasMap[a] in ValidLangs
  {
  }

  /** A name Notion accepts that is not an alias is kept as it is. */
  lemma {:induction false} NormalizeKeepsValid(lang: string)
    requires lang in ValidLangs && lang !in AliasMap
    ensures Normalize(lang) == lang
  {
  }

  /** A name that is neither an alias nor accepted becomes `plain text`. */
  lemma {:induction false} NormalizeUnknown(lang: string)
    requires lang !in AliasMap && lang !in ValidLangs
    ensures Normalize(lang) == PlainText
  {
  }

  /**
   * The `lang` of the `fence` / `code_block` branch: `plain text` unless the token is a fence with
   * a non-empty info string, whose first word, lower-cased, is taken; `split()[0]` of an info string
   * made only of whitespace raises `IndexError`.
   */
  function RawLanguage(t: Token): Result<string, Failure>
  {
    if t.kind == "fence" && t.info != [] then
      var words := Words(t.info);
      if words == [] then Err(IndexError) else Ok(Lower(words[0]))
    else Ok(PlainText)
  }

  /** The language a code block gets, or the exception its info string raises. */
  function BlockLanguage(t: Token): (r: Result<string, Failure>)
    ensures r.Ok? ==> r.value in ValidLangs
  {
    match RawLanguage(t)
    case Ok(lang) => Ok(Normalize(lang))
    case Err(e) => Err(e)
  }

  /** `plain text` is not an alias. */
  lemma PlainTextNoAlias()
    ensures PlainText !in AliasMap
  {
  }

  /** `plain text` is a Notion language. */
  lemma PlainTextValid()
    ensures PlainText in ValidLangs
  {
  }

  /** `plain text` is no alias and is a Notion language, so it stays as it is. */
  lemma PlainTextKept()
    ensures Normalize(PlainText) == PlainText
  {
    PlainTextNoAlias();
    PlainTextValid();
    NormalizeKeepsValid(PlainText);
  }

  /** What `BlockLanguage` returns, case by case. */
  lemma {:induction false} BlockLanguageCases(t: Token)
    ensures t.kind != "fence" || t.info == [] ==> BlockLanguage(t) == Ok(PlainText)
    ensures t.kind == "fence" && t.info != [] ==>
      (BlockLanguage(t) == Err(IndexError) <==> Blank(t.info))
    ensures t.kind == "fence" && t.info != [] && BlockLanguage(t).Ok? ==>
      var w := Words(t.info)[0];
      w != [] && NoSpace(w) && BlockLanguage(t) == Ok(Normalize(Lower(w)))
  {
    PlainTextKept();
    if t.kind == "fence" && t.info != [] {
      WordsEmpty(t.info);
      WordsShape(t.info);
    }
  }

  /** `code[:2000]`: the content of a code block is cut to its first 2000 characters. */
  function CodeText(code: string): (r: string)
    ensures |r| <= 2000 && |r| <= |code| && r == code[..|r|]
    ensures |code| <= 2000 ==> r == code
    ensures |code| > 2000 ==> |r| == 2000
  {
    if |code| <= 2000 then code else code[..2000]
  }

  /** An alias is replaced by the Notion language it names. */
  lemma {:induction false} NormalizeAlias(lang: string)
    requires lang in AliasMap
    ensures Normalize(lang) == AliasMap[lang]
  {
    AliasTargetsValid();
  }

  /** Three entries of the alias table. */
  lemma AliasEntries()
    ensures "cs" in AliasMap && AliasMap["cs"] == "c#"
    ensures "zsh" in AliasMap && AliasMap["zsh"] == "bash"
    ensures "console" in AliasMap && AliasMap["console"] == "shell"
  {
  }

  /** Three of the aliases: C# shorthand, a shell dialect, and console output. */
  lemma AliasExamples()
    ensures Normalize("cs") == "c#" && Normalize("zsh") == "bash" && Normalize("console") == "shell"
  {
    AliasEntries();
    NormalizeAlias("cs");
    NormalizeAlias("zsh");
    NormalizeAlias("console");
  }
}
