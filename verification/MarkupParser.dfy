/** `ParserBase` of `_markupbase.py`: the loops over the buffer, proved to decide what the pure
    scanner decides, and the line and column bookkeeping of `updatepos`. */
module MarkupParser {
  import opened Wrappers
  import opened Chars
  import opened MarkupScan

  // ---- positions ----

  datatype Position = Position(line: int, column: int)

  /** The position behind a text that starts at `p`. */
  function Advance(p: Position, text: string): Position
    decreases text
  {
    if text == [] then p
    else Advance(if text[0] == '\n' then Position(p.line + 1, 0) else Position(p.line, p.column + 1), text[1..])
  }

  function Newlines(text: string): nat {
    if text == [] then 0 else Newlines(text[..|text| - 1]) + if text[|text| - 1] == '\n' then 1 else 0
  }

  /** `text.rindex("\n")` */
  function LastNewline(text: string): (k: nat)
    requires Newlines(text) > 0
    ensures k < |text|
  {
    if text[|text| - 1] == '\n' then |text| - 1 else LastNewline(text[..|text| - 1])
  }

  lemma {:induction false} AdvanceConcat(p: Position, a: string, b: string)
    ensures Advance(p, a + b) == Advance(Advance(p, a), b)
    decreases a
  {
    if a == [] {
      assert a + b == b;
    } else {
      assert (a + b)[1..] == a[1..] + b;
      AdvanceConcat(if a[0] == '\n' then Position(p.line + 1, 0) else Position(p.line, p.column + 1), a[1..], b);
    }
  }

  /** Counting line breaks and finding the last one gives the position that reading the text
      character by character does. */
  lemma {:induction false} CountedPosition(p: Position, text: string)
    ensures Advance(p, text) ==
            if Newlines(text) > 0 then Position(p.line + Newlines(text), |text| - (LastNewline(text) + 1))
            else Position(p.line, p.column + |text|)
  {
    if text != [] {
      var rest, c := text[..|text| - 1], text[|text| - 1];
      CountedPosition(p, rest);
      assert text == rest + [c] && [c][1..] == [];
      AdvanceConcat(p, rest, [c]);
    }
  }

  /** Positions add up: two adjacent updates are one, so updating over consecutive pieces of the
      input always gives the position of the end of what was covered. */
  lemma ConsecutiveUpdates(p: Position, s: string, i: nat, j: nat, k: nat)
    requires i <= j <= k <= |s|
    ensures Advance(Advance(p, s[i..j]), s[j..k]) == Advance(p, s[i..k])
  {
    assert s[i..k] == s[i..j] + s[j..k];
    AdvanceConcat(p, s[i..j], s[j..k]);
  }

  /** Where `updatepos(i, j)` goes from `p`; an end beyond the buffer still counts as columns. */
  function Updated(p: Position, s: string, i: nat, j: nat): Position
    requires i <= |s|
  {
    if i >= j then p
    else
      var end := if j <= |s| then j else |s|;
      var q := Advance(p, s[i..end]);
      Position(q.line, q.column + j - end)
  }

  function MarkOf(r: Scan): Option<nat> { if r.Raises? then r.mark else None }

  // ---- the parser ----

  class ParserBase {
    var rawdata: string
    var lineno: int
    var offset: int
    var declOtherchars: string
    var events: seq<Event>  // the calls of handle_decl, unknown_decl and handle_comment

    /** `reset` */
    constructor (rawdata: string)
      ensures this.rawdata == rawdata && Pos() == Position(1, 0) && declOtherchars == "" && events == []
    {
      this.rawdata, lineno, offset, declOtherchars, events := rawdata, 1, 0, "", [];
    }

    function Pos(): Position
      reads this`lineno, this`offset
    {
      Position(lineno, offset)
    }

    /** `updatepos` was called up to `mark`, or not at all. */
    twostate predicate MovedTo(mark: Option<nat>, start: nat)
      requires start <= |rawdata|
      reads this
    {
      Pos() == if mark.Some? then Updated(old(Pos()), rawdata, start, mark.value) else old(Pos())
    }

    /** `updatepos` */
    method UpdatePos(i: nat, j: nat)
      requires i <= |rawdata|
      modifies this`lineno, this`offset
      ensures Pos() == Updated(old(Pos()), rawdata, i, j)
    {
      if i >= j { return; }
      var end := if j <= |rawdata| then j else |rawdata|;
      var text := rawdata[i..end];
      CountedPosition(Pos(), text);
      var nlines := Newlines(text);
      if nlines > 0 {
        lineno := lineno + nlines;
        var pos := i + LastNewline(text);
        offset := j - (pos + 1);
      } else {
        offset := offset + j - i;
      }
    }

    /** `_scan_name` */
    method ScanName(i: nat, start: nat) returns (r: NameScan)
      requires i <= |rawdata| && start <= |rawdata|
      modifies this`lineno, this`offset
      ensures r == MarkupScan.ScanName(rawdata, i)
      ensures MovedTo(if r.NameRaises? then Some(i) else None, start)
    {
      var n := |rawdata|;
      if i == n { return NoName; }
      if IsLetter(rawdata[i]) {
        var e := SpanEnd(rawdata, i + 1, IsNameChar);
        var end := SpanEnd(rawdata, e, IsSpace);
        if end == n { return NoName; }
        return Name(Lower(rawdata[i..e]), end);
      }
      UpdatePos(start, i);
      return NameRaises;
    }

    /** `_parse_doctype_element` */
    method ParseDoctypeElement(i: nat, start: nat) returns (r: Scan)
      requires i <= |rawdata| && start <= |rawdata|
      modifies this`lineno, this`offset
      ensures r == DoctypeElement(rawdata, i) && MovedTo(MarkOf(r), start)
    {
      var name := ScanName(i, start);
      if name.NoName? { return Incomplete; }
      if name.NameRaises? { return Raises(Some(i)); }
      var k := FindChar(rawdata, '>', name.pos);
      return if k < |rawdata| then At(k + 1) else Incomplete;
    }

    /** `_parse_doctype_attlist` */
    method ParseDoctypeAttlist(i: nat, start: nat) returns (r: Scan)
      requires i <= |rawdata| && start <= |rawdata|
      modifies this`lineno, this`offset
      ensures r == DoctypeAttlist(rawdata, i) && MovedTo(MarkOf(r), start)
    {
      var name := ScanName(i, start);
      if name.NoName? { return Incomplete; }
      if name.NameRaises? { return Raises(Some(i)); }
      if rawdata[name.pos] == '>' { return At(name.pos + 1); }
      r := ParseAttributes(name.pos, start);
    }

    /** The loop of `_parse_doctype_attlist`. */
    method ParseAttributes(i: nat, start: nat) returns (r: Scan)
      requires i < |rawdata| && start <= |rawdata|
      modifies this`lineno, this`offset
      ensures r == Attributes(rawdata, i) && MovedTo(MarkOf(r), start)
    {
      var j := i;
      while true
        invariant i <= j < |rawdata| && Pos() == old(Pos()) && Attributes(rawdata, i) == Attributes(rawdata, j)
        decreases |rawdata| - j
      {
        r := ParseAttribute(j, start);
        if !r.At? { return; }
        j := r.pos;
        if rawdata[j] == '>' { return At(j + 1); }
      }
    }

    /** The body of the loop of `_parse_doctype_attlist`. */
    method ParseAttribute(i: nat, start: nat) returns (r: Scan)
      requires i < |rawdata| && start <= |rawdata|
      modifies this`lineno, this`offset
      ensures r == AttributeEnd(rawdata, i) && MovedTo(MarkOf(r), start)
    {
      var name := ScanName(i, start);
      if name.NoName? { return Incomplete; }
      if name.NameRaises? { return Raises(Some(i)); }
      r := ParseAttributeType(name.pos, start);
      if !r.At? { return; }
      r := AttributeDefault(rawdata, r.pos);
      if !r.At? { return; }
      r := ParseAttributeConstraint(r.pos, start);
    }

    method ParseAttributeType(i: nat, start: nat) returns (r: Scan)
      requires i < |rawdata| && start <= |rawdata|
      modifies this`lineno, this`offset
      ensures r == AttributeType(rawdata, i) && MovedTo(MarkOf(r), start)
    {
      if rawdata[i] == '(' {
        var k := FindChar(rawdata, ')', i);
        if k == |rawdata| { return Incomplete; }
        var j := SkipSpace(k + 1);
        return if j == |rawdata| then Incomplete else At(j);
      }
      var name := ScanName(i, start);
      if name.NoName? { return Incomplete; }
      if name.NameRaises? { return Raises(Some(i)); }
      return At(name.pos);
    }

    method ParseAttributeConstraint(i: nat, start: nat) returns (r: Scan)
      requires i < |rawdata| && start <= |rawdata|
      modifies this`lineno, this`offset
      ensures r == AttributeConstraint(rawdata, i) && MovedTo(MarkOf(r), start)
    {
      if rawdata[i] != '#' { return At(i); }
      if i + 1 == |rawdata| { return Incomplete; }
      var name := ScanName(i + 1, start);
      if name.NoName? { return Incomplete; }
      if name.NameRaises? { return Raises(Some(i + 1)); }
      return At(name.pos);
    }

    /** The loops that step over white space one character at a time. */
    method SkipSpace(i: nat) returns (j: nat)
      requires i <= |rawdata|
      ensures j == SpanEnd(rawdata, i, IsSpace)
    {
      j := i;
      while j < |rawdata| && IsSpace(rawdata[j])
        invariant i <= j <= |rawdata| && SpanEnd(rawdata, i, IsSpace) == SpanEnd(rawdata, j, IsSpace)
      {
        j := j + 1;
      }
    }

    /** `_parse_doctype_notation` */
    method ParseDoctypeNotation(i: nat, start: nat) returns (r: Scan)
      requires i <= |rawdata| && start <= |rawdata|
      modifies this`lineno, this`offset
      ensures r == DoctypeNotation(rawdata, i) && MovedTo(MarkOf(r), start)
    {
      var name := ScanName(i, start);
      if name.NoName? { return Incomplete; }
      if name.NameRaises? { return Raises(Some(i)); }
      var j := name.pos;
      while j < |rawdata|
        invariant i < j <= |rawdata| && Pos() == old(Pos())
        invariant DoctypeNotation(rawdata, i) == Tokens(rawdata, j)
        decreases |rawdata| - j
      {
        var c := rawdata[j];
        if c == '>' { return At(j + 1); }
        if IsQuote(c) {
          var m := StringLiteral(rawdata, j);
          if m.None? { return Incomplete; }
          j := m.value;
        } else {
          name := ScanName(j, start);
          if name.NoName? { return Incomplete; }
          if name.NameRaises? { return Raises(Some(j)); }
          j := name.pos;
        }
      }
      return Incomplete;
    }

    /** `_parse_doctype_entity`, whose second loop is that of `_parse_doctype_notation`. */
    method ParseDoctypeEntity(i: nat, start: nat) returns (r: Scan)
      requires i <= |rawdata| && start <= |rawdata|
      modifies this`lineno, this`offset
      ensures r == DoctypeEntity(rawdata, i) && MovedTo(MarkOf(r), start)
    {
      var j := i;
      if i < |rawdata| && rawdata[i] == '%' {
        j := SkipSpace(i + 1);
        if j == |rawdata| { return Incomplete; }
      }
      r := ParseDoctypeNotation(j, start);
    }

    /** `getattr(self, "_parse_doctype_" + name)` */
    method ParseDoctypeItem(name: string, j: nat, start: nat) returns (r: Scan)
      requires j < |rawdata| && start <= |rawdata|
      modifies this`lineno, this`offset
      ensures r == DoctypeItem(name, rawdata, j) && MovedTo(MarkOf(r), start)
    {
      if name == "attlist" { r := ParseDoctypeAttlist(j, start); }
      else if name == "element" { r := ParseDoctypeElement(j, start); }
      else if name == "entity" { r := ParseDoctypeEntity(j, start); }
      else if name == "notation" { r := ParseDoctypeNotation(j, start); }
      else {
        UpdatePos(start, j + 2);
        r := Raises(Some(j + 2));
      }
    }

    /** The '<' branch of `_parse_doctype_subset`. */
    method ParseDoctypeMarkup(j: nat, start: nat) returns (r: Scan)
      requires j < |rawdata| && start <= |rawdata|
      modifies this`lineno, this`offset, this`events
      ensures r == DoctypeMarkup(rawdata, j) && MovedTo(MarkOf(r), start) && events == old(events)
    {
      if j + 1 == |rawdata| { return Incomplete; }
      if rawdata[j + 1] != '!' {
        UpdatePos(start, j + 1);
        return Raises(Some(j + 1));
      }
      if j + 4 > |rawdata| { return Incomplete; }
      if rawdata[j..j + 4] == "<!--" {
        var comment := ParseComment(j, false);
        return if comment.More? then Incomplete else At(comment.end);
      }
      var name := ScanName(j + 2, start);
      if name.NoName? { return Incomplete; }
      if name.NameRaises? { return Raises(Some(j + 2)); }
      r := ParseDoctypeItem(name.name, name.pos, start);
    }

    /** The '%' branch of `_parse_doctype_subset`. */
    method ParseParameterReference(j: nat, start: nat) returns (r: Scan)
      requires j < |rawdata| && start <= |rawdata|
      modifies this`lineno, this`offset
      ensures r == ParameterReference(rawdata, j) && MovedTo(MarkOf(r), start)
    {
      if j + 1 == |rawdata| { return Incomplete; }
      var name := ScanName(j + 1, start);
      if name.NoName? { return Incomplete; }
      if name.NameRaises? { return Raises(Some(j + 1)); }
      return At(if rawdata[name.pos] == ';' then name.pos + 1 else name.pos);
    }

    /** The branches of `_parse_doctype_subset` for anything but ']'. */
    method ParseSubsetPiece(j: nat, start: nat) returns (r: Scan)
      requires j < |rawdata| && start <= |rawdata|
      modifies this`lineno, this`offset, this`events
      ensures r == SubsetPiece(rawdata, j) && MovedTo(MarkOf(r), start) && events == old(events)
    {
      var c := rawdata[j];
      if c == '<' {
        r := ParseDoctypeMarkup(j, start);
      } else if c == '%' {
        r := ParseParameterReference(j, start);
      } else if IsSpace(c) {
        r := At(j + 1);
      } else {
        UpdatePos(start, j);
        r := Raises(Some(j));
      }
    }

    /** The ']' branch of `_parse_doctype_subset`. */
    method ParseSubsetEnd(j: nat, start: nat) returns (r: Scan)
      requires j < |rawdata| && start <= |rawdata|
      modifies this`lineno, this`offset
      ensures r == SubsetEnd(rawdata, j) && MovedTo(MarkOf(r), start)
    {
      var k := SkipSpace(j + 1);
      if k == |rawdata| { return Incomplete; }
      if rawdata[k] == '>' { return At(k); }
      UpdatePos(start, k);
      return Raises(Some(k));
    }

    /** `_parse_doctype_subset` */
    method ParseDoctypeSubset(i: nat, start: nat) returns (r: Scan)
      requires i <= |rawdata| && start <= |rawdata|
      modifies this`lineno, this`offset, this`events
      ensures r == DoctypeSubset(rawdata, i) && MovedTo(MarkOf(r), start) && events == old(events)
    {
      var n := |rawdata|;
      var j := i;
      while j < n
        invariant i <= j <= n && Pos() == old(Pos()) && events == old(events)
        invariant DoctypeSubset(rawdata, i) == DoctypeSubset(rawdata, j)
        decreases n - j
      {
        if rawdata[j] == ']' {
          r := ParseSubsetEnd(j, start);
          return;
        }
        r := ParseSubsetPiece(j, start);
        if !r.At? { return; }
        j := r.pos;
      }
      return Incomplete;
    }

    /** What a call leaves behind: the position, moved only by a failure, and the handler calls. */
    twostate predicate Records(r: Outcome, start: nat)
      requires r.Fails? ==> start <= |rawdata|
      reads this
    {
      && Pos() == (if r.Fails? && r.mark.Some? then Updated(old(Pos()), rawdata, start, r.mark.value) else old(Pos()))
      && events == old(events) + (if r.Done? && r.event.Some? then [r.event.value] else [])
    }

    /** `parse_comment` */
    method ParseComment(i: nat, report: bool) returns (r: Outcome)
      requires i <= |rawdata|
      modifies this`events
      ensures r == Comment(rawdata, i, report) && Records(r, i)
    {
      if !HasPrefixAt(rawdata, i, "<!--") { return Fails(None); }
      var m := Search(CommentClose, rawdata, i + 4);
      if m.None? { return More; }
      if report {
        var event := HandleComment(rawdata[i + 4..m.value.0]);
        events := events + [event];
        return Done(m.value.1, Some(event));
      }
      return Done(m.value.1, None);
    }

    /** `parse_marked_section` */
    method ParseMarkedSection(i: nat, report: bool) returns (r: Outcome)
      requires i <= |rawdata|
      modifies this`lineno, this`offset, this`events
      ensures r == MarkedSection(rawdata, i, report) && Records(r, i)
    {
      if !HasPrefixAt(rawdata, i, "<![") { return Fails(None); }
      var name := ScanName(i + 3, i);
      if name.NoName? { return More; }
      if name.NameRaises? { return Fails(Some(i + 3)); }
      var closer := SectionCloser(name.name);
      if closer.None? { return Fails(None); }
      var m := Search(closer.value, rawdata, i + 3);
      if m.None? { return More; }
      if report {
        var event := UnknownDecl(rawdata[i + 3..m.value.0]);
        events := events + [event];
        return Done(m.value.1, Some(event));
      }
      return Done(m.value.1, None);
    }

    /** `parse_declaration` */
    method ParseDeclaration(i: nat) returns (r: Outcome)
      requires i <= |rawdata|
      modifies this`lineno, this`offset, this`events, this`declOtherchars
      ensures r == Declaration(rawdata, i, old(declOtherchars)) && Records(r, i)
    {
      var j := i + 2;
      if !HasPrefixAt(rawdata, i, "<!") { return Fails(None); }
      var n := |rawdata|;
      if j < n && rawdata[j] == '>' { return Done(j + 1, None); }
      if j == n || rawdata[j] == '-' { return More; }
      if rawdata[j] == '[' {
        r := ParseMarkedSection(i, true);
        return;
      }
      var name := ScanName(j, i);
      if name.NoName? { return More; }
      if name.NameRaises? { return Fails(Some(j)); }
      var decltype := name.name;
      if decltype == "doctype" { declOtherchars := ""; }
      r := ParseDeclarationBody(i, decltype, name.pos);
    }

    /** The loop of `parse_declaration`. */
    method ParseDeclarationBody(i: nat, decltype: string, first: nat) returns (r: Outcome)
      requires i + 2 <= first <= |rawdata|
      modifies this`lineno, this`offset, this`events
      ensures r == DeclBody(rawdata, i, decltype, declOtherchars, first) && Records(r, i)
    {
      var n := |rawdata|;
      var j := first;
      while j < n
        invariant first <= j <= n && Pos() == old(Pos()) && events == old(events)
        invariant DeclBody(rawdata, i, decltype, declOtherchars, first) == DeclBody(rawdata, i, decltype, declOtherchars, j)
        decreases n - j
      {
        if rawdata[j] == '>' {
          var data := rawdata[i + 2..j];
          var event := if decltype == "doctype" then HandleDecl(data) else UnknownDecl(data);
          events := events + [event];
          return Done(j + 1, Some(event));
        }
        var token := ParseDeclarationToken(i, decltype, j);
        if token.Incomplete? { return More; }
        if token.Raises? { return Fails(token.mark); }
        j := token.pos;
      }
      return More;
    }

    method ParseDeclarationToken(i: nat, decltype: string, j: nat) returns (r: Scan)
      requires i <= j < |rawdata|
      modifies this`lineno, this`offset, this`events
      ensures r == DeclToken(rawdata, decltype, declOtherchars, j) && MovedTo(MarkOf(r), i) && events == old(events)
    {
      var c := rawdata[j];
      if IsQuote(c) {
        var m := StringLiteral(rawdata, j);
        r := if m.None? then Incomplete else At(m.value);
      } else if IsLetter(c) {
        var name := ScanName(j, i);
        r := match name case NoName => Incomplete case Name(_, pos) => At(pos) case NameRaises => Raises(Some(j));
      } else if c in declOtherchars {
        r := At(j + 1);
      } else if c == '[' && decltype == "doctype" {
        r := ParseDoctypeSubset(j + 1, i);
      } else {
        r := Raises(None);
      }
    }
  }
}
