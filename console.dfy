/**
 * The directives sent to the game server's console through its `screen`
 * session. Only the text of a directive is modelled; whether the local
 * dispatch succeeded is an answer supplied from outside.
 */
module Console {
  import opened NameRules

  datatype Command = WhitelistAdd(name: string) | WhitelistRemove(name: string)
  {
    /** The console line: `whitelist add <name>` or `whitelist remove <name>`. */
    function Text(): (t: string)
      ensures |t| > |name| && t[|t| - |name|..] == name
    {
      match this
      case WhitelistAdd(n) => "whitelist add " + n
      case WhitelistRemove(n) => "whitelist remove " + n
    }

    /** What is typed into the console window: the line followed by a newline (see OneLine). */
    function Keystrokes(): string
    {
      Text() + "\n"
    }
  }

  /** Two different directives never produce the same console line. */
  lemma TextInjective(c: Command, d: Command)
    requires c.Text() == d.Text()
    ensures c == d
  {
    KindsDiffer(c.name, d.name);
    KindsDiffer(d.name, c.name);
    var t := c.Text();
    if c.WhitelistAdd? == d.WhitelistAdd? {
      var p := if c.WhitelistAdd? then "whitelist add " else "whitelist remove ";
      assert t == p + c.name && t == p + d.name;
      assert c.name == t[|p|..] == d.name;
    }
  }

  /** An add line and a remove line already differ in their second word. */
  lemma KindsDiffer(added: string, removed: string)
    ensures WhitelistAdd(added).Text() != WhitelistRemove(removed).Text()
  {
    assert WhitelistAdd(added).Text()[10] == 'a';
    assert WhitelistRemove(removed).Text()[10] == 'r';
  }

  /**
   * A directive for a well-formed name types exactly one line: the only
   * newline is the terminating one, so no second directive can be smuggled in.
   */
  lemma OneLine(c: Command)
    requires ValidFormat(c.name)
    ensures forall i :: 0 <= i < |c.Keystrokes()| - 1 ==> c.Keystrokes()[i] != '\n'
  {
    ValidFormatMeans(c.name);
    var p := if c.WhitelistAdd? then "whitelist add " else "whitelist remove ";
    var k := c.Keystrokes();
    assert k == p + c.name + "\n";
    assert forall j :: 0 <= j < |p| ==> p[j] != '\n';
    forall i | 0 <= i < |k| - 1 ensures k[i] != '\n' {
      if i < |p| {
        assert k[i] == p[i];
      } else {
        assert k[i] == c.name[i - |p|];
      }
    }
  }
}
