/** What the declaration scanner of `_markupbase.py` decides about a buffer, as pure functions:
    each scan is incomplete (it returned -1), ends at a position, or raises. */
module MarkupScan {
  import opened Wrappers
  import opened Chars

  /** `Raises` carries the position up to which `updatepos` was called before raising, if it was. */
  datatype Scan = Incomplete | At(pos: nat) | Raises(mark: Option<nat>)

  datatype NameScan = NoName | Name(name: string, pos: nat) | NameRaises

  datatype Event = HandleDecl(data: string) | UnknownDecl(data: string) | HandleComment(data: string)

  datatype Outcome = More | Done(end: nat, event: Option<Event>) | Fails(mark: Option<nat>)

  /** A position past `start`, inside or just behind the buffer. */
  predicate InBuffer(r: Scan, start: nat, s: string) {
    r.At? ==> start < r.pos <= |s|
  }

  // ---- the five patterns ----

  predicate IsNameChar(c: char) { IsLetter(c) || IsDigit(c) || c == '-' || c == '_' || c == '.' }

  predicate IsQuote(c: char) { c == '"' || c == '\'' }

  /** `('[^']*'|"[^"]*")\s*` at `j`: the end of the match */
  function StringLiteral(s: string, j: nat): (m: Option<nat>)
    requires j < |s| && IsQuote(s[j])
    ensures m.Some? ==> j + 1 < m.value <= |s|
  {
    var close := FindChar(s, s[j], j + 1);
    if close == |s| then None else Some(SpanEnd(s, close + 1, IsSpace))
  }

  datatype Closer = CommentClose | MarkedClose | MsMarkedClose

  /** `--\s*>`, `]\s*]\s*>` and `]\s*>` at `p`: the end of the match */
  function MatchCloser(k: Closer, s: string, p: nat): (m: Option<nat>)
    ensures m.Some? ==> p + 1 < m.value <= |s|
  {
    match k
    case CommentClose =>
      if p + 1 < |s| && s[p] == '-' && s[p + 1] == '-' then BlanksThenClose(s, p + 2) else None
    case MarkedClose =>
      if p < |s| && s[p] == ']' then
        var e := SpanEnd(s, p + 1, IsSpace);
        if e < |s| && s[e] == ']' then BlanksThenClose(s, e + 1) else None
      else None
    case MsMarkedClose =>
      if p < |s| && s[p] == ']' then BlanksThenClose(s, p + 1) else None
  }

  /** `\s*>` at `p` */
  function BlanksThenClose(s: string, p: nat): (m: Option<nat>)
    requires p <= |s|
    ensures m.Some? ==> p < m.value <= |s|
  {
    var e := SpanEnd(s, p, IsSpace);
    if e < |s| && s[e] == '>' then Some(e + 1) else None
  }

  /** `pattern.search(s, i)`: start and end of the leftmost match */
  function Search(k: Closer, s: string, i: nat): (m: Option<(nat, nat)>)
    ensures m.Some? ==>
      i <= m.value.0 && m.value.0 + 1 < m.value.1 <= |s| && MatchCloser(k, s, m.value.0) == Some(m.value.1)
    decreases |s| - i
  {
    if i > |s| then None
    else if MatchCloser(k, s, i).Some? then Some((i, MatchCloser(k, s, i).value))
    else Search(k, s, i + 1)
  }

  /** The match found is the leftmost, and none is found only when there is none. */
  lemma {:induction false} SearchLeftmost(k: Closer, s: string, i: nat, p: nat)
    requires i <= p && (Search(k, s, i).Some? ==> p < Search(k, s, i).value.0)
    ensures MatchCloser(k, s, p).None?
    decreases |s| - i
  {
    if i <= |s| && MatchCloser(k, s, i).None? && i < p { SearchLeftmost(k, s, i + 1, p); }
  }

  // ---- scans ----

  /** `_scan_name`: a name and the white space behind it must end inside the buffer. */
  function ScanName(s: string, i: nat): (r: NameScan)
    requires i <= |s|
    ensures r.Name? ==> i < r.pos < |s|
  {
    if i == |s| then NoName
    else if !IsLetter(s[i]) then NameRaises
    else
      var e := SpanEnd(s, i + 1, IsNameChar);
      var end := SpanEnd(s, e, IsSpace);
      if end == |s| then NoName else Name(Lower(s[i..e]), end)
  }

  /** `_parse_doctype_element` */
  function DoctypeElement(s: string, i: nat): (r: Scan)
    requires i <= |s|
    ensures InBuffer(r, i, s)
  {
    match ScanName(s, i)
    case NoName => Incomplete
    case NameRaises => Raises(Some(i))
    case Name(_, j) =>
      var k := FindChar(s, '>', j);
      if k < |s| then At(k + 1) else Incomplete
  }

  /** `_parse_doctype_attlist` */
  function DoctypeAttlist(s: string, i: nat): (r: Scan)
    requires i <= |s|
    ensures InBuffer(r, i, s)
  {
    match ScanName(s, i)
    case NoName => Incomplete
    case NameRaises => Raises(Some(i))
    case Name(_, j) => if s[j] == '>' then At(j + 1) else Attributes(s, j)
  }

  /** The attribute descriptions from `j` on. */
  function Attributes(s: string, j: nat): (r: Scan)
    requires j < |s|
    ensures InBuffer(r, j, s)
    decreases |s| - j
  {
    match AttributeEnd(s, j)
    case Incomplete => Incomplete
    case Raises(mark) => Raises(mark)
    case At(k) => if s[k] == '>' then At(k + 1) else Attributes(s, k)
  }

  /** One attribute description: name, type, default value, constraint. */
  function AttributeEnd(s: string, j: nat): (r: Scan)
    requires j < |s|
    ensures r.At? ==> j < r.pos < |s|
  {
    match ScanName(s, j)
    case NoName => Incomplete
    case NameRaises => Raises(Some(j))
    case Name(_, j1) =>
      match AttributeType(s, j1)
      case Incomplete => Incomplete
      case Raises(mark) => Raises(mark)
      case At(j2) =>
        match AttributeDefault(s, j2)
        case Incomplete => Incomplete
        case Raises(mark) => Raises(mark)
        case At(j3) => AttributeConstraint(s, j3)
  }

  function AttributeType(s: string, j: nat): (r: Scan)
    requires j < |s|
    ensures r.At? ==> j < r.pos < |s|
  {
    if s[j] == '(' then
      var k := FindChar(s, ')', j);
      if k == |s| then Incomplete else
        var e := SpanEnd(s, k + 1, IsSpace);
        if e == |s| then Incomplete else At(e)
    else
      match ScanName(s, j)
      case NoName => Incomplete
      case NameRaises => Raises(Some(j))
      case Name(_, k) => At(k)
  }

  function AttributeDefault(s: string, j: nat): (r: Scan)
    requires j < |s|
    ensures r.At? ==> j <= r.pos < |s|
  {
    if IsQuote(s[j]) then
      match StringLiteral(s, j)
      case None => Incomplete
      case Some(k) => if k == |s| then Incomplete else At(k)
    else At(j)
  }

  function AttributeConstraint(s: string, j: nat): (r: Scan)
    requires j < |s|
    ensures r.At? ==> j <= r.pos < |s|
  {
    if s[j] == '#' then
      if j + 1 == |s| then Incomplete else
        match ScanName(s, j + 1)
        case NoName => Incomplete
        case NameRaises => Raises(Some(j + 1))
        case Name(_, k) => At(k)
    else At(j)
  }

  /** The loop of `_parse_doctype_notation` and `_parse_doctype_entity`: names and literals to '>'. */
  function Tokens(s: string, j: nat): (r: Scan)
    requires j <= |s|
    ensures InBuffer(r, j, s)
    decreases |s| - j
  {
    if j == |s| then Incomplete
    else if s[j] == '>' then At(j + 1)
    else if IsQuote(s[j]) then
      match StringLiteral(s, j)
      case None => Incomplete
      case Some(k) => Tokens(s, k)
    else
      match ScanName(s, j)
      case NoName => Incomplete
      case NameRaises => Raises(Some(j))
      case Name(_, k) => Tokens(s, k)
  }

  /** `_parse_doctype_notation` */
  function DoctypeNotation(s: string, i: nat): (r: Scan)
    requires i <= |s|
    ensures InBuffer(r, i, s)
  {
    match ScanName(s, i)
    case NoName => Incomplete
    case NameRaises => Raises(Some(i))
    case Name(_, j) => Tokens(s, j)
  }

  /** `_parse_doctype_entity` */
  function DoctypeEntity(s: string, i: nat): (r: Scan)
    requires i <= |s|
    ensures InBuffer(r, i, s)
  {
    var j := if i < |s| && s[i] == '%' then SpanEnd(s, i + 1, IsSpace) else i;
    DoctypeNotation(s, j)
  }

  /** The method named after a declaration inside the internal subset. */
  function DoctypeItem(name: string, s: string, j: nat): (r: Scan)
    requires j < |s|
    ensures InBuffer(r, j, s)
  {
    if name == "attlist" then DoctypeAttlist(s, j)
    else if name == "element" then DoctypeElement(s, j)
    else if name == "entity" then DoctypeEntity(s, j)
    else if name == "notation" then DoctypeNotation(s, j)
    else Raises(Some(j + 2))
  }

  predicate HasPrefixAt(s: string, j: nat, prefix: string) {
    j + |prefix| <= |s| && s[j..j + |prefix|] == prefix
  }

  /** A declaration, comment or unfinished piece of one that starts with '<' at `j`. */
  function DoctypeMarkup(s: string, j: nat): (r: Scan)
    requires j < |s|
    ensures InBuffer(r, j, s)
  {
    if j + 1 == |s| then Incomplete
    else if s[j + 1] != '!' then Raises(Some(j + 1))
    else if j + 4 > |s| then Incomplete
    else if HasPrefixAt(s, j, "<!--") then
      match Search(CommentClose, s, j + 4)
      case None => Incomplete
      case Some((_, e)) => At(e)
    else
      match ScanName(s, j + 2)
      case NoName => Incomplete
      case NameRaises => Raises(Some(j + 2))
      case Name(name, k) => DoctypeItem(name, s, k)
  }

  /** A parameter entity reference, '%' at `j`. */
  function ParameterReference(s: string, j: nat): (r: Scan)
    requires j < |s|
    ensures InBuffer(r, j, s)
  {
    if j + 1 == |s| then Incomplete else
      match ScanName(s, j + 1)
      case NoName => Incomplete
      case NameRaises => Raises(Some(j + 1))
      case Name(_, k) => if s[k] == ';' then At(k + 1) else At(k)
  }

  /** One piece of the internal subset: markup, a parameter entity reference or a blank. */
  function SubsetPiece(s: string, j: nat): (r: Scan)
    requires j < |s|
    ensures InBuffer(r, j, s)
  {
    if s[j] == '<' then DoctypeMarkup(s, j)
    else if s[j] == '%' then ParameterReference(s, j)
    else if IsSpace(s[j]) then At(j + 1)
    else Raises(Some(j))
  }

  /** The ']' that ends the internal subset, and the white space up to the '>' behind it. */
  function SubsetEnd(s: string, j: nat): (r: Scan)
    requires j < |s|
    ensures r.At? ==> j < r.pos < |s|
  {
    var k := SpanEnd(s, j + 1, IsSpace);
    if k == |s| then Incomplete else if s[k] == '>' then At(k) else Raises(Some(k))
  }

  /** `_parse_doctype_subset` from position `j` of the subset on */
  function DoctypeSubset(s: string, j: nat): (r: Scan)
    requires j <= |s|
    ensures r.At? ==> j < r.pos < |s|
    decreases |s| - j
  {
    if j == |s| then Incomplete
    else if s[j] == ']' then SubsetEnd(s, j)
    else
      match SubsetPiece(s, j)
      case Incomplete => Incomplete
      case Raises(mark) => Raises(mark)
      case At(k) => DoctypeSubset(s, k)
  }

  // ---- declarations ----

  /** `parse_comment` */
  function Comment(s: string, i: nat, report: bool): (r: Outcome)
    ensures r.Done? ==> i < r.end <= |s|
  {
    if !HasPrefixAt(s, i, "<!--") then Fails(None) else
      match Search(CommentClose, s, i + 4)
      case None => More
      case Some((j, e)) => Done(e, if report then Some(HandleComment(s[i + 4..j])) else None)
  }

  /** The pattern that ends a marked section with the given status keyword. */
  function SectionCloser(name: string): Option<Closer> {
    if name in {"temp", "cdata", "ignore", "include", "rcdata"} then Some(MarkedClose)
    else if name in {"if", "else", "endif"} then Some(MsMarkedClose)
    else None
  }

  /** `parse_marked_section` */
  function MarkedSection(s: string, i: nat, report: bool): (r: Outcome)
    ensures r.Done? ==> i < r.end <= |s|
  {
    if !HasPrefixAt(s, i, "<![") then Fails(None) else
      match ScanName(s, i + 3)
      case NoName => More
      case NameRaises => Fails(Some(i + 3))
      case Name(name, _) =>
        match SectionCloser(name)
        case None => Fails(None)
        case Some(k) => SectionEnd(s, i, k, report)
  }

  function SectionEnd(s: string, i: nat, k: Closer, report: bool): (r: Outcome)
    ensures r.Done? ==> i < r.end <= |s|
  {
    match Search(k, s, i + 3)
    case None => More
    case Some((j, e)) => Done(e, if report then Some(UnknownDecl(s[i + 3..j])) else None)
  }

  /** One step of the loop of `parse_declaration`, on a character other than '>'. */
  function DeclToken(s: string, decltype: string, other: string, j: nat): (r: Scan)
    requires j < |s|
    ensures InBuffer(r, j, s)
  {
    if IsQuote(s[j]) then
      match StringLiteral(s, j)
      case None => Incomplete
      case Some(k) => At(k)
    else if IsLetter(s[j]) then
      match ScanName(s, j)
      case NoName => Incomplete
      case NameRaises => Raises(Some(j))
      case Name(_, k) => At(k)
    else if s[j] in other then At(j + 1)
    else if s[j] == '[' && decltype == "doctype" then DoctypeSubset(s, j + 1)
    else Raises(None)
  }

  /** The loop of `parse_declaration` from `j` on, for a declaration that starts at `i`. */
  function DeclBody(s: string, i: nat, decltype: string, other: string, j: nat): (r: Outcome)
    requires i + 2 <= j <= |s|
    ensures r.Done? ==> j < r.end <= |s|
    decreases |s| - j
  {
    if j == |s| then More
    else if s[j] == '>' then
      var data := s[i + 2..j];
      Done(j + 1, Some(if decltype == "doctype" then HandleDecl(data) else UnknownDecl(data)))
    else
      match DeclToken(s, decltype, other, j)
      case Incomplete => More
      case Raises(mark) => Fails(mark)
      case At(k) => DeclBody(s, i, decltype, other, k)
  }

  /** `parse_declaration`; `other` is the value of `_decl_otherchars` on entry. */
  function Declaration(s: string, i: nat, other: string): (r: Outcome)
    ensures r.Done? ==> i < r.end <= |s|
  {
    var j := i + 2;
    if !HasPrefixAt(s, i, "<!") then Fails(None)
    else if j < |s| && s[j] == '>' then Done(j + 1, None)
    else if j == |s| || s[j] == '-' then More
    else if s[j] == '[' then MarkedSection(s, i, true)
    else
      match ScanName(s, j)
      case NoName => More
      case NameRaises => Fails(Some(j))
      case Name(decltype, k) => DeclBody(s, i, decltype, if decltype == "doctype" then "" else other, k)
  }
}
