/**
 * GitHub-style alert kinds (`> [!NOTE]` ...), which the scraper writes into blockquotes and the
 * uploader turns into Notion callouts.
 */
module Alerts {
  import opened Wrappers
  import opened Text

  datatype AlertKind = Note | Tip | Important | Warning | Caution

  /** The upper-case name of a kind, as it appears in a marker. */
  function Name(k: AlertKind): string
  {
    match k
    case Note => "NOTE"
    case Tip => "TIP"
    case Important => "IMPORTANT"
    case Warning => "WARNING"
    case Caution => "CAUTION"
  }

  /** The marker `[!KIND]`. */
  function Marker(k: AlertKind): (m: string)
    ensures |m| == |Name(k)| + 3 && m[0] == '[' && m[1] == '!' && m[|m| - 1] == ']'
    ensures forall i :: 0 <= i < |m| ==> m[i] != '\n'
  {
    "[!" + Name(k) + "]"
  }

  /** The position of a kind in the order the converter tries them: NOTE first, CAUTION last. */
  function Rank(k: AlertKind): nat
  {
    match k
    case Note => 0
    case Tip => 1
    case Important => 2
    case Warning => 3
    case Caution => 4
  }

  /** Different kinds have different names and different markers. */
  lemma NamesDistinct(k: AlertKind, j: AlertKind)
    requires k != j
    ensures Name(k) != Name(j) && Marker(k) != Marker(j)
  {
    assert Marker(k)[2..|Marker(k)| - 1] == Name(k);
    assert Marker(j)[2..|Marker(j)| - 1] == Name(j);
  }

  /** The alert of a blockquote's raw text: the first kind, in order, whose marker occurs anywhere. */
  function DetectAlert(raw: string): Option<AlertKind>
  {
    if Contains(raw, "[!NOTE]") then Some(Note)
    else if Contains(raw, "[!TIP]") then Some(Tip)
    else if Contains(raw, "[!IMPORTANT]") then Some(Important)
    else if Contains(raw, "[!WARNING]") then Some(Warning)
    else if Contains(raw, "[!CAUTION]") then Some(Caution)
    else None
  }

  /**
   * `DetectAlert` picks `k` exactly when the marker of `k` occurs and no marker of an earlier kind
   * does, and picks nothing exactly when no marker occurs.
   */
  lemma DetectAlertSpec(raw: string, k: AlertKind)
    ensures DetectAlert(raw) == Some(k) <==>
      Contains(raw, Marker(k)) && forall j: AlertKind :: Rank(j) < Rank(k) ==> !Contains(raw, Marker(j))
    ensures DetectAlert(raw) == None <==> forall j: AlertKind :: !Contains(raw, Marker(j))
  {
    MarkerTexts();
  }

  /** The five markers as the converter spells them. */
  lemma MarkerTexts()
    ensures Marker(Note) == "[!NOTE]" && Marker(Tip) == "[!TIP]" && Marker(Important) == "[!IMPORTANT]"
    ensures Marker(Warning) == "[!WARNING]" && Marker(Caution) == "[!CAUTION]"
  {
  }

  /** The callout icon of each kind. */
  function Emoji(k: AlertKind): string
  {
    match k
    case Note => "\U{2139}\U{fe0f}"
    case Tip => "\U{1f4a1}"
    case Important => "\U{1f525}"
    case Warning => "\U{26a0}\U{fe0f}"
    case Caution => "\U{1f6d1}"
  }

  /** The callout background colour of each kind. */
  function Color(k: AlertKind): string
  {
    match k
    case Note => "blue_background"
    case Tip => "green_background"
    case Important => "purple_background"
    case Warning => "orange_background"
    case Caution => "red_background"
  }

  /** Each kind has its own icon and its own colour. */
  lemma StylesDistinct(k: AlertKind, j: AlertKind)
    requires k != j
    ensures Emoji(k) != Emoji(j) && Color(k) != Color(j)
  {
  }
}
