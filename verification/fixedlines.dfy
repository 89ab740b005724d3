/** The fixed lines of the profile block (internal/config/manager_unix.go:14-17,
    119-121) and the characters they are made of. Each line is written as
    short pieces, and each fact about a line is proved about its pieces. */
module FixedLines {

  const ProductName := "Claude Foundry Manager"
  const MarkerBegin := "# >>> " + ProductName + " - BEGIN >>>"
  const MarkerEnd := "# <<< " + ProductName + " - END <<<"
  const HeaderComment := "# Claude Code Azure" + " Foundry Configuration"
  const ManagedComment := "# Managed by" + " claude-foundry-manager" + " - DO NOT EDIT MANUALLY"

  /** Free of newlines, carriage returns and the markers' angle brackets. */
  predicate Bland(s: string) {
    '\n' !in s && '\r' !in s && '>' !in s && '<' !in s
  }

  /** No character of `s` is in `bad`. */
  predicate Without(s: string, bad: set<char>) {
    forall i :: 0 <= i < |s| ==> s[i] !in bad
  }

  lemma WithoutAppend(a: string, b: string, bad: set<char>)
    requires Without(a, bad) && Without(b, bad)
    ensures Without(a + b, bad)
  {
    forall i | 0 <= i < |a + b|
      ensures (a + b)[i] !in bad
    {
      if i >= |a| {
        assert (a + b)[i] == b[i - |a|];
      }
    }
  }

  lemma WithoutNotIn(s: string, bad: set<char>)
    requires Without(s, bad)
    ensures forall c :: c in bad ==> c !in s
  {
  }

  const NotEnd := {'\n', '\r', '<'}
  const NotBegin := {'\n', '\r', '>'}
  const NotMarker := {'\n', '\r', '>', '<'}

  lemma ProductNameChars()
    ensures Without(ProductName, NotMarker)
  {
  }

  lemma BeginPieces()
    ensures Without("# >>> ", NotEnd) && Without(" - BEGIN >>>", NotEnd) && "# >>> "[2] == '>'
  {
  }

  lemma EndPieces()
    ensures Without("# <<< ", NotBegin) && Without(" - END <<<", NotBegin) && "# <<< "[2] == '<'
  {
  }

  lemma Narrower(s: string, bad: set<char>, fewer: set<char>)
    requires Without(s, bad) && fewer <= bad
    ensures Without(s, fewer)
  {
  }

  /** Each marker has its own bracket and not the other's. */
  lemma MarkerChars()
    ensures '>' in MarkerBegin && '<' !in MarkerBegin && '\n' !in MarkerBegin && '\r' !in MarkerBegin
    ensures '<' in MarkerEnd && '>' !in MarkerEnd && '\n' !in MarkerEnd && '\r' !in MarkerEnd
  {
    ProductNameChars();
    BeginPieces();
    EndPieces();
    Narrower(ProductName, NotMarker, NotEnd);
    Narrower(ProductName, NotMarker, NotBegin);
    WithoutAppend("# >>> ", ProductName, NotEnd);
    WithoutAppend("# >>> " + ProductName, " - BEGIN >>>", NotEnd);
    WithoutNotIn(MarkerBegin, NotEnd);
    WithoutAppend("# <<< ", ProductName, NotBegin);
    WithoutAppend("# <<< " + ProductName, " - END <<<", NotBegin);
    WithoutNotIn(MarkerEnd, NotBegin);
    assert MarkerBegin[2] == '>' && MarkerEnd[2] == '<';
  }

  lemma HeaderPieces()
    ensures Without("# Claude Code Azure", NotMarker) && Without(" Foundry Configuration", NotMarker)
    ensures "# Claude Code Azure"[0] == '#'
  {
  }

  lemma HeaderBland()
    ensures Bland(HeaderComment) && HeaderComment[0] == '#'
  {
    HeaderPieces();
    WithoutAppend("# Claude Code Azure", " Foundry Configuration", NotMarker);
    WithoutNotIn(HeaderComment, NotMarker);
  }

  lemma ManagedPieces()
    ensures Without("# Managed by", NotMarker) && Without(" claude-foundry-manager", NotMarker)
    ensures Without(" - DO NOT EDIT MANUALLY", NotMarker) && "# Managed by"[0] == '#'
  {
  }

  lemma ManagedBland()
    ensures Bland(ManagedComment) && ManagedComment[0] == '#'
  {
    ManagedPieces();
    WithoutAppend("# Managed by", " claude-foundry-manager", NotMarker);
    WithoutAppend("# Managed by" + " claude-foundry-manager", " - DO NOT EDIT MANUALLY", NotMarker);
    WithoutNotIn(ManagedComment, NotMarker);
  }
  /** The characters an export line is built around. */
  const Punctuation := {'=', '"'}

  lemma PunctuationFreePieces()
    ensures Without(ProductName, Punctuation)
    ensures Without("# >>> ", Punctuation) && Without(" - BEGIN >>>", Punctuation)
    ensures Without("# <<< ", Punctuation) && Without(" - END <<<", Punctuation)
    ensures "# >>> "[0] == '#' && "# <<< "[0] == '#'
  {
  }

  /** Both markers start with `#` and hold neither `=` nor a double quote. */
  lemma MarkersPunctuationFree()
    ensures '=' !in MarkerBegin && '"' !in MarkerBegin && MarkerBegin[0] == '#'
    ensures '=' !in MarkerEnd && '"' !in MarkerEnd && MarkerEnd[0] == '#'
  {
    PunctuationFreePieces();
    WithoutAppend("# >>> ", ProductName, Punctuation);
    WithoutAppend("# >>> " + ProductName, " - BEGIN >>>", Punctuation);
    WithoutNotIn(MarkerBegin, Punctuation);
    WithoutAppend("# <<< ", ProductName, Punctuation);
    WithoutAppend("# <<< " + ProductName, " - END <<<", Punctuation);
    WithoutNotIn(MarkerEnd, Punctuation);
    assert MarkerBegin[0] == "# >>> "[0] && MarkerEnd[0] == "# <<< "[0];
  }
}
