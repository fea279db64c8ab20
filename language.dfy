/** The ecosystems a project can belong to. */
module Languages {
  import opened Text

  datatype Language = Python | Node | Rust | Dart | CSharp | Java

  /** Declaration position, which the derived `Ord` compares. */
  function Position(l: Language): (p: nat)
    ensures p < 6
  {
    match l
    case Python => 0
    case Node => 1
    case Rust => 2
    case Dart => 3
    case CSharp => 4
    case Java => 5
  }

  predicate Less(a: Language, b: Language) {
    Position(a) < Position(b)
  }

  lemma DeclarationOrder()
    ensures Less(Python, Node) && Less(Node, Rust) && Less(Rust, Dart)
    ensures Less(Dart, CSharp) && Less(CSharp, Java)
  {
  }

  lemma PositionInjective(a: Language, b: Language)
    requires Position(a) == Position(b)
    ensures a == b
  {
  }

  /** The key under which the publish configuration lists a language-wide command. */
  function PublishKey(l: Language): (k: string)
    ensures |k| >= 4
    ensures forall i :: 0 <= i < |k| ==> 'a' <= k[i] <= 'z'
  {
    match l
    case Node => "node"
    case Python => "python"
    case Rust => "rust"
    case Dart => "dart"
    case CSharp => "csharp"
    case Java => "java"
  }

  /** Distinct languages have distinct publish keys. */
  lemma PublishKeyInjective(a: Language, b: Language)
    requires PublishKey(a) == PublishKey(b)
    ensures a == b
  {
    assert PublishKey(a)[0] == PublishKey(b)[0];
    if PublishKey(a)[0] == 'd' {
      assert PublishKey(a)[1] == PublishKey(b)[1];
    }
  }

  function Name(l: Language): string {
    match l
    case Python => "Python"
    case Node => "Node.js"
    case Rust => "Rust"
    case Dart => "Dart"
    case CSharp => "C#"
    case Java => "Java"
  }

  /** The SGR parameters of the bold colour each name is shown in. */
  function Style(l: Language): string {
    match l
    case Python => "1;33"
    case Node => "1;32"
    case Rust => "1;38;2;139;69;19"
    case Dart => "1;34"
    case CSharp => "1;35"
    case Java => "1;31"
  }

  /**
   * `Display`: with colouring on, the human-readable name between a colour
   * escape and a reset; with colouring off (no terminal, or the colour
   * environment variables turn it off), the bare name.
   */
  function Display(l: Language, colorize: bool): (s: string)
    ensures colorize ==> StartsWith(s, "\U{1B}[" + Style(l) + "m")
    ensures colorize ==> EndsWith(s, Name(l) + "\U{1B}[0m")
    ensures !colorize ==> s == Name(l)
  {
    if colorize then "\U{1B}[" + Style(l) + "m" + Name(l) + "\U{1B}[0m" else Name(l)
  }

  lemma DisplayContainsName(l: Language, colorize: bool)
    ensures Contains(Display(l, colorize), Name(l))
  {
    if colorize {
      var prefix := "\U{1B}[" + Style(l) + "m";
      assert Display(l, colorize)[|prefix|..|prefix| + |Name(l)|] == Name(l);
      ContainsAt(Display(l, colorize), Name(l), |prefix|);
    } else {
      ContainsAt(Name(l), Name(l), 0);
    }
  }
}
