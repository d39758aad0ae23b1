/** The scanner never changes its mind: whatever it decides on a buffer, other than "need more
    input", it decides on every longer buffer. */
module MarkupStability {
  import opened Wrappers
  import opened Chars
  import opened MarkupScan

  lemma SpanEndStable(s: string, u: string, i: nat, p: char -> bool)
    requires s <= u && i <= |s|
    ensures SpanEnd(s, i, p) < |s| ==> SpanEnd(u, i, p) == SpanEnd(s, i, p)
    ensures SpanEnd(s, i, p) == |s| ==> |s| <= SpanEnd(u, i, p)
  {
    assert forall k :: 0 <= k < |s| ==> u[k] == s[k];
  }

  lemma SliceStable(s: string, u: string, a: nat, b: nat)
    requires s <= u && a <= b <= |s|
    ensures u[a..b] == s[a..b]
  {
  }

  lemma FindCharStable(s: string, u: string, c: char, i: nat)
    requires s <= u && i <= |s|
    ensures FindChar(s, c, i) < |s| ==> FindChar(u, c, i) == FindChar(s, c, i)
  {
    assert forall k :: 0 <= k < |s| ==> u[k] == s[k];
  }

  // ---- pattern searches ----

  /** A match is the text up to the first '>' behind its start. */
  lemma CloserEnd(k: Closer, s: string, p: nat)
    requires MatchCloser(k, s, p).Some?
    ensures var e := MatchCloser(k, s, p).value;
            s[e - 1] == '>' && forall q :: p <= q < e - 1 ==> s[q] != '>'
  {
    NoCloseInBlanks();
  }

  lemma NoCloseInBlanks()
    ensures !IsSpace('>') && !IsSpace('-') && !IsSpace(']')
  {
  }

  lemma CloserStable(k: Closer, s: string, u: string, p: nat)
    requires s <= u
    ensures MatchCloser(k, s, p).Some? ==> MatchCloser(k, u, p) == MatchCloser(k, s, p)
    ensures MatchCloser(k, s, p).None? && MatchCloser(k, u, p).Some? ==> |s| < MatchCloser(k, u, p).value
  {
    match k
    case CommentClose =>
      if p + 2 <= |s| { BlanksStable(s, u, p + 2); }
    case MarkedClose =>
      if p < |s| { MarkedCloseStable(s, u, p); }
    case MsMarkedClose =>
      if p < |s| { BlanksStable(s, u, p + 1); }
  }

  lemma MarkedCloseStable(s: string, u: string, p: nat)
    requires s <= u && p < |s|
    ensures MatchCloser(MarkedClose, s, p).Some? ==> MatchCloser(MarkedClose, u, p) == MatchCloser(MarkedClose, s, p)
    ensures MatchCloser(MarkedClose, s, p).None? && MatchCloser(MarkedClose, u, p).Some? ==>
      |s| < MatchCloser(MarkedClose, u, p).value
  {
    SpanEndStable(s, u, p + 1, IsSpace);
    var e := SpanEnd(s, p + 1, IsSpace);
    if e < |s| { BlanksStable(s, u, e + 1); }
  }

  lemma BlanksStable(s: string, u: string, p: nat)
    requires s <= u && p <= |s|
    ensures BlanksThenClose(s, p).Some? ==> BlanksThenClose(u, p) == BlanksThenClose(s, p)
    ensures BlanksThenClose(s, p).None? && BlanksThenClose(u, p).Some? ==> |s| < BlanksThenClose(u, p).value
  {
    SpanEndStable(s, u, p, IsSpace);
  }

  /** More input does not turn a position before a match into an earlier match. */
  lemma NoEarlierMatch(k: Closer, s: string, u: string, p: nat, m: nat)
    requires s <= u && p <= m && MatchCloser(k, s, p).None? && MatchCloser(k, s, m).Some?
    ensures MatchCloser(k, u, p).None?
  {
    CloserStable(k, s, u, p);
    CloserEnd(k, s, m);
    var e := MatchCloser(k, s, m).value;
    assert u[e - 1] == '>';
    if MatchCloser(k, u, p).Some? { CloserEnd(k, u, p); }
  }

  lemma {:induction false} SearchStable(k: Closer, s: string, u: string, i: nat)
    requires s <= u && Search(k, s, i).Some?
    ensures Search(k, u, i) == Search(k, s, i)
    decreases |s| - i
  {
    CloserStable(k, s, u, i);
    if MatchCloser(k, s, i).None? {
      NoEarlierMatch(k, s, u, i, Search(k, s, i).value.0);
      SearchStable(k, s, u, i + 1);
    }
  }

  lemma LiteralStable(s: string, u: string, j: nat)
    requires s <= u && j < |s| && IsQuote(s[j])
    ensures StringLiteral(s, j).Some? && StringLiteral(s, j).value < |s| ==> StringLiteral(u, j) == StringLiteral(s, j)
  {
    FindCharStable(s, u, s[j], j + 1);
    var close := FindChar(s, s[j], j + 1);
    if close < |s| { SpanEndStable(s, u, close + 1, IsSpace); }
  }

  lemma PrefixStable(s: string, u: string, j: nat, prefix: string)
    requires s <= u
    ensures HasPrefixAt(s, j, prefix) ==> HasPrefixAt(u, j, prefix)
    ensures j + |prefix| <= |s| ==> (HasPrefixAt(u, j, prefix) <==> HasPrefixAt(s, j, prefix))
  {
    if j + |prefix| <= |s| { assert u[j..j + |prefix|] == s[j..j + |prefix|]; }
  }

  // ---- scans ----

  lemma NameStable(s: string, u: string, i: nat)
    requires s <= u && i <= |s| && ScanName(s, i) != NoName
    ensures ScanName(u, i) == ScanName(s, i)
  {
    if i < |s| && IsLetter(s[i]) {
      SpanEndStable(s, u, i + 1, IsNameChar);
      var e := SpanEnd(s, i + 1, IsNameChar);
      SpanEndStable(s, u, e, IsSpace);
      SliceStable(s, u, i, e);
    }
  }

  lemma ElementStable(s: string, u: string, i: nat)
    requires s <= u && i <= |s| && DoctypeElement(s, i) != Incomplete
    ensures DoctypeElement(u, i) == DoctypeElement(s, i)
  {
    NameStable(s, u, i);
    if ScanName(s, i).Name? { FindCharStable(s, u, '>', ScanName(s, i).pos); }
  }

  lemma AttributeTypeStable(s: string, u: string, j: nat)
    requires s <= u && j < |s| && AttributeType(s, j) != Incomplete
    ensures AttributeType(u, j) == AttributeType(s, j)
  {
    if s[j] == '(' {
      FindCharStable(s, u, ')', j);
      var k := FindChar(s, ')', j);
      SpanEndStable(s, u, k + 1, IsSpace);
    } else {
      NameStable(s, u, j);
    }
  }

  lemma AttributeDefaultStable(s: string, u: string, j: nat)
    requires s <= u && j < |s| && AttributeDefault(s, j) != Incomplete
    ensures AttributeDefault(u, j) == AttributeDefault(s, j)
  {
    if IsQuote(s[j]) { LiteralStable(s, u, j); }
  }

  lemma AttributeConstraintStable(s: string, u: string, j: nat)
    requires s <= u && j < |s| && AttributeConstraint(s, j) != Incomplete
    ensures AttributeConstraint(u, j) == AttributeConstraint(s, j)
  {
    if s[j] == '#' { NameStable(s, u, j + 1); }
  }

  lemma AttributeStable(s: string, u: string, j: nat)
    requires s <= u && j < |s| && AttributeEnd(s, j) != Incomplete
    ensures AttributeEnd(u, j) == AttributeEnd(s, j)
  {
    NameStable(s, u, j);
    if ScanName(s, j).Name? {
      var j1 := ScanName(s, j).pos;
      AttributeTypeStable(s, u, j1);
      if AttributeType(s, j1).At? {
        var j2 := AttributeType(s, j1).pos;
        AttributeDefaultStable(s, u, j2);
        if AttributeDefault(s, j2).At? {
          AttributeConstraintStable(s, u, AttributeDefault(s, j2).pos);
        }
      }
    }
  }

  lemma {:induction false} AttributesStable(s: string, u: string, j: nat)
    requires s <= u && j < |s| && Attributes(s, j) != Incomplete
    ensures Attributes(u, j) == Attributes(s, j)
    decreases |s| - j
  {
    AttributeStable(s, u, j);
    if AttributeEnd(s, j).At? && s[AttributeEnd(s, j).pos] != '>' {
      AttributesStable(s, u, AttributeEnd(s, j).pos);
    }
  }

  lemma AttlistStable(s: string, u: string, i: nat)
    requires s <= u && i <= |s| && DoctypeAttlist(s, i) != Incomplete
    ensures DoctypeAttlist(u, i) == DoctypeAttlist(s, i)
  {
    NameStable(s, u, i);
    if ScanName(s, i).Name? && s[ScanName(s, i).pos] != '>' { AttributesStable(s, u, ScanName(s, i).pos); }
  }

  lemma {:induction false} TokensStable(s: string, u: string, j: nat)
    requires s <= u && j <= |s| && Tokens(s, j) != Incomplete
    ensures Tokens(u, j) == Tokens(s, j)
    decreases |s| - j
  {
    if s[j] != '>' {
      if IsQuote(s[j]) {
        LiteralStable(s, u, j);
        TokensStable(s, u, StringLiteral(s, j).value);
      } else {
        NameStable(s, u, j);
        if ScanName(s, j).Name? { TokensStable(s, u, ScanName(s, j).pos); }
      }
    }
  }

  lemma NotationStable(s: string, u: string, i: nat)
    requires s <= u && i <= |s| && DoctypeNotation(s, i) != Incomplete
    ensures DoctypeNotation(u, i) == DoctypeNotation(s, i)
  {
    NameStable(s, u, i);
    if ScanName(s, i).Name? { TokensStable(s, u, ScanName(s, i).pos); }
  }

  lemma EntityStable(s: string, u: string, i: nat)
    requires s <= u && i < |s| && DoctypeEntity(s, i) != Incomplete
    ensures DoctypeEntity(u, i) == DoctypeEntity(s, i)
  {
    if s[i] == '%' {
      SpanEndStable(s, u, i + 1, IsSpace);
      NotationStable(s, u, SpanEnd(s, i + 1, IsSpace));
    } else {
      NotationStable(s, u, i);
    }
  }

  lemma ItemStable(name: string, s: string, u: string, j: nat)
    requires s <= u && j < |s| && DoctypeItem(name, s, j) != Incomplete
    ensures DoctypeItem(name, u, j) == DoctypeItem(name, s, j)
  {
    if name == "attlist" { AttlistStable(s, u, j); }
    else if name == "element" { ElementStable(s, u, j); }
    else if name == "entity" { EntityStable(s, u, j); }
    else if name == "notation" { NotationStable(s, u, j); }
  }

  lemma MarkupStable(s: string, u: string, j: nat)
    requires s <= u && j < |s| && DoctypeMarkup(s, j) != Incomplete
    ensures DoctypeMarkup(u, j) == DoctypeMarkup(s, j)
  {
    if s[j + 1] == '!' {
      PrefixStable(s, u, j, "<!--");
      if HasPrefixAt(s, j, "<!--") {
        SearchStable(CommentClose, s, u, j + 4);
      } else {
        NameStable(s, u, j + 2);
        if ScanName(s, j + 2).Name? { ItemStable(ScanName(s, j + 2).name, s, u, ScanName(s, j + 2).pos); }
      }
    }
  }

  lemma PieceStable(s: string, u: string, j: nat)
    requires s <= u && j < |s| && SubsetPiece(s, j) != Incomplete
    ensures SubsetPiece(u, j) == SubsetPiece(s, j)
  {
    if s[j] == '<' {
      MarkupStable(s, u, j);
    } else if s[j] == '%' {
      NameStable(s, u, j + 1);
    }
  }

  lemma {:induction false} SubsetStable(s: string, u: string, j: nat)
    requires s <= u && j <= |s| && DoctypeSubset(s, j) != Incomplete
    ensures DoctypeSubset(u, j) == DoctypeSubset(s, j)
    decreases |s| - j
  {
    if s[j] == ']' {
      SpanEndStable(s, u, j + 1, IsSpace);
    } else {
      PieceStable(s, u, j);
      if SubsetPiece(s, j).At? { SubsetStable(s, u, SubsetPiece(s, j).pos); }
    }
  }

  // ---- declarations ----

  /** `parse_comment` */
  lemma CommentStable(s: string, u: string, i: nat, report: bool)
    requires s <= u && i + 4 <= |s| && Comment(s, i, report) != More
    ensures Comment(u, i, report) == Comment(s, i, report)
  {
    PrefixStable(s, u, i, "<!--");
    if HasPrefixAt(s, i, "<!--") {
      SearchStable(CommentClose, s, u, i + 4);
      SliceStable(s, u, i + 4, Search(CommentClose, s, i + 4).value.0);
    }
  }

  lemma SectionEndStable(s: string, u: string, i: nat, k: Closer, report: bool)
    requires s <= u && SectionEnd(s, i, k, report) != More
    ensures SectionEnd(u, i, k, report) == SectionEnd(s, i, k, report)
  {
    SearchStable(k, s, u, i + 3);
    SliceStable(s, u, i + 3, Search(k, s, i + 3).value.0);
  }

  /** `parse_marked_section` */
  lemma MarkedSectionStable(s: string, u: string, i: nat, report: bool)
    requires s <= u && i + 3 <= |s| && MarkedSection(s, i, report) != More
    ensures MarkedSection(u, i, report) == MarkedSection(s, i, report)
  {
    PrefixStable(s, u, i, "<![");
    if HasPrefixAt(s, i, "<![") {
      NameStable(s, u, i + 3);
      if ScanName(s, i + 3).Name? && SectionCloser(ScanName(s, i + 3).name).Some? {
        SectionEndStable(s, u, i, SectionCloser(ScanName(s, i + 3).name).value, report);
      }
    }
  }

  /** A scan that stopped inside the buffer. */
  predicate Stopped(r: Scan, s: string) {
    r != Incomplete && (r.At? ==> r.pos < |s|)
  }

  lemma QuotedTokenStable(s: string, u: string, decltype: string, other: string, j: nat)
    requires s <= u && j < |s| && IsQuote(s[j]) && Stopped(DeclToken(s, decltype, other, j), s)
    ensures DeclToken(u, decltype, other, j) == DeclToken(s, decltype, other, j)
  {
    LiteralStable(s, u, j);
  }

  lemma NameTokenStable(s: string, u: string, decltype: string, other: string, j: nat)
    requires s <= u && j < |s| && !IsQuote(s[j]) && IsLetter(s[j]) && Stopped(DeclToken(s, decltype, other, j), s)
    ensures DeclToken(u, decltype, other, j) == DeclToken(s, decltype, other, j)
  {
    NameStable(s, u, j);
  }

  lemma SubsetTokenStable(s: string, u: string, decltype: string, other: string, j: nat)
    requires s <= u && j < |s| && !IsQuote(s[j]) && !IsLetter(s[j]) && Stopped(DeclToken(s, decltype, other, j), s)
    ensures DeclToken(u, decltype, other, j) == DeclToken(s, decltype, other, j)
  {
    if s[j] !in other && s[j] == '[' && decltype == "doctype" { SubsetStable(s, u, j + 1); }
  }

  lemma TokenStable(s: string, u: string, decltype: string, other: string, j: nat)
    requires s <= u && j < |s| && Stopped(DeclToken(s, decltype, other, j), s)
    ensures DeclToken(u, decltype, other, j) == DeclToken(s, decltype, other, j)
  {
    if IsQuote(s[j]) {
      QuotedTokenStable(s, u, decltype, other, j);
    } else if IsLetter(s[j]) {
      NameTokenStable(s, u, decltype, other, j);
    } else {
      SubsetTokenStable(s, u, decltype, other, j);
    }
  }

  lemma {:induction false} BodyStable(s: string, u: string, i: nat, decltype: string, other: string, j: nat)
    requires s <= u && i + 2 <= j <= |s| && DeclBody(s, i, decltype, other, j) != More
    ensures DeclBody(u, i, decltype, other, j) == DeclBody(s, i, decltype, other, j)
    decreases |s| - j
  {
    if s[j] == '>' {
      SliceStable(s, u, i + 2, j);
    } else {
      TokenStable(s, u, decltype, other, j);
      var r := DeclToken(s, decltype, other, j);
      if r.At? { BodyStable(s, u, i, decltype, other, r.pos); }
    }
  }

  /** Prefix stability of the whole scanner: the same end, the same handler call, the same failure. */
  lemma DeclarationStable(s: string, u: string, i: nat, other: string)
    requires s <= u && Declaration(s, i, other) != More && (Declaration(s, i, other).Fails? ==> i + 2 <= |s|)
    ensures Declaration(u, i, other) == Declaration(s, i, other)
  {
    var j := i + 2;
    PrefixStable(s, u, i, "<!");
    if HasPrefixAt(s, i, "<!") && s[j] != '>' {
      if s[j] == '[' {
        MarkedSectionStable(s, u, i, true);
      } else {
        NameStable(s, u, j);
        if ScanName(s, j).Name? {
          var Name(decltype, k) := ScanName(s, j);
          BodyStable(s, u, i, decltype, if decltype == "doctype" then "" else other, k);
        }
      }
    }
  }

  /** Two buffers that are both beginnings of the same input never give two different decisions. */
  lemma DecisionsAgree(s: string, s': string, input: string, i: nat, other: string)
    requires s <= input && s' <= input && i + 2 <= |s| && i + 2 <= |s'|
    requires Declaration(s, i, other) != More && Declaration(s', i, other) != More
    ensures Declaration(s, i, other) == Declaration(s', i, other)
  {
    DeclarationStable(s, input, i, other);
    DeclarationStable(s', input, i, other);
  }

  /** A comment is never recognised here: the buffer-boundary test before it already returns -1 on
      the first '-', so the comment branch of `parse_declaration` cannot be reached. */
  lemma CommentsNeverDecided(s: string, i: nat, other: string)
    requires HasPrefixAt(s, i, "<!-")
    ensures Declaration(s, i, other) == More
  {
    assert s[i..i + 3][..2] == s[i..i + 2] && s[i + 2] == s[i..i + 3][2];
    assert "<!-"[..2] == "<!";
  }
}
