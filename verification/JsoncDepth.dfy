/**
 The structural depth scanner of the JSONC reader (packages/contract/src/jsonc.ts), against the nesting depth of the
 JSON value a text prints (sections 4, 5 and 7 of RFC 8259, with line and block comments between tokens).
 */
module JsoncDepth {
  import opened Texts

  const QUOTE: CodeUnit := 34
  const STAR: CodeUnit := 42
  const SLASH: CodeUnit := 47
  const BACKSLASH: CodeUnit := 92
  const OPEN_ARRAY: CodeUnit := 91
  const CLOSE_ARRAY: CodeUnit := 93
  const OPEN_OBJECT: CodeUnit := 123
  const CLOSE_OBJECT: CodeUnit := 125
  const LINE_FEED: CodeUnit := 10
  const CARRIAGE_RETURN: CodeUnit := 13
  const COMMA: CodeUnit := 44
  const COLON: CodeUnit := 58

  // ----- The scanner -----

  datatype Mode = InCode | InString(escaped: bool) | InLineComment | InBlockComment

  // Whether the depth exceeds the limit somewhere in the rest of a text.
  function Scan(text: Text, mode: Mode, depth: nat, limit: nat): bool {
    if text == [] then false
    else
      var c := text[0];
      var pair := |text| > 1;
      match mode
      case InLineComment =>
        Scan(text[1..], if c == LINE_FEED || c == CARRIAGE_RETURN then InCode else InLineComment, depth, limit)
      case InBlockComment =>
        if c == STAR && pair && text[1] == SLASH then Scan(text[2..], InCode, depth, limit)
        else Scan(text[1..], InBlockComment, depth, limit)
      case InString(escaped) =>
        Scan(text[1..],
             if escaped then InString(false) else if c == BACKSLASH then InString(true)
             else if c == QUOTE then InCode else InString(false),
             depth, limit)
      case InCode =>
        if c == SLASH && pair && text[1] == SLASH then Scan(text[2..], InLineComment, depth, limit)
        else if c == SLASH && pair && text[1] == STAR then Scan(text[2..], InBlockComment, depth, limit)
        else if c == QUOTE then Scan(text[1..], InString(false), depth, limit)
        else if c == OPEN_OBJECT || c == OPEN_ARRAY then depth + 1 > limit || Scan(text[1..], InCode, depth + 1, limit)
        else if c == CLOSE_OBJECT || c == CLOSE_ARRAY then Scan(text[1..], InCode, if depth > 0 then depth - 1 else 0, limit)
        else Scan(text[1..], InCode, depth, limit)
  }

  function ModeOf(inString: bool, escaped: bool, inLineComment: bool, inBlockComment: bool): Mode {
    if inLineComment then InLineComment else if inBlockComment then InBlockComment
    else if inString then InString(escaped) else InCode
  }

  method JsonStructuralDepthExceeds(text: Text, limit: nat) returns (exceeds: bool)
    ensures exceeds == Scan(text, InCode, 0, limit)
  {
    var depth: nat := 0;
    var inString, inLineComment, inBlockComment, escaped := false, false, false, false;
    var index := 0;
    while index < |text|
      invariant index <= |text|
      invariant (escaped ==> inString) && !(inString && inLineComment) && !(inString && inBlockComment) && !(inLineComment && inBlockComment)
      invariant Scan(text, InCode, 0, limit)
             == Scan(text[index..], ModeOf(inString, escaped, inLineComment, inBlockComment), depth, limit)
      decreases |text| - index
    {
      var character := text[index];
      var next := if index + 1 < |text| then text[index + 1] else 0;
      ghost var rest := text[index..];
      assert rest[1..] == text[index + 1..];
      assert index + 1 < |text| ==> rest[1] == next && rest[2..] == text[index + 2..];
      if inLineComment {
        if character == LINE_FEED || character == CARRIAGE_RETURN {
          inLineComment := false;
        }
        index := index + 1;
        continue;
      }
      if inBlockComment {
        if character == STAR && next == SLASH {
          inBlockComment := false;
          index := index + 1;
        }
        index := index + 1;
        continue;
      }
      if inString {
        if escaped {
          escaped := false;
        } else if character == BACKSLASH {
          escaped := true;
        } else if character == QUOTE {
          inString := false;
        }
        index := index + 1;
        continue;
      }
      if character == SLASH && next == SLASH {
        inLineComment := true;
        index := index + 1;
      } else if character == SLASH && next == STAR {
        inBlockComment := true;
        index := index + 1;
      } else if character == QUOTE {
        inString := true;
      } else if character == OPEN_OBJECT || character == OPEN_ARRAY {
        depth := depth + 1;
        if depth > limit {
          return true;
        }
      } else if character == CLOSE_OBJECT || character == CLOSE_ARRAY {
        depth := if depth > 0 then depth - 1 else 0;
      }
      index := index + 1;
    }
    return false;
  }

  // ----- Texts as token sequences -----

  datatype Token =
    | OpenToken(curly: bool)
    | CloseToken(curly: bool)
    | StringToken(body: Text)
    | PlainToken(unit: CodeUnit)
    | LineCommentToken(comment: Text, terminator: CodeUnit)
    | BlockCommentToken(remark: Text)

  // A string body in source form: no bare quote, and every backslash followed by the unit it escapes.
  predicate WellEscaped(body: Text) {
    || body == []
    || (body[0] == BACKSLASH && |body| > 1 && WellEscaped(body[2..]))
    || (body[0] != BACKSLASH && body[0] != QUOTE && WellEscaped(body[1..]))
  }

  predicate IsLineEnd(u: CodeUnit) {
    u == LINE_FEED || u == CARRIAGE_RETURN
  }

  predicate OneLine(body: Text) {
    forall i :: 0 <= i < |body| ==> !IsLineEnd(body[i])
  }

  predicate NoCommentEnd(body: Text) {
    forall i :: 0 <= i < |body| - 1 ==> !(body[i] == STAR && body[i + 1] == SLASH)
  }

  predicate IsPlain(u: CodeUnit) {
    u !in {QUOTE, SLASH, OPEN_ARRAY, CLOSE_ARRAY, OPEN_OBJECT, CLOSE_OBJECT}
  }

  predicate WellFormed(token: Token) {
    match token
    case StringToken(body) => WellEscaped(body)
    case PlainToken(unit) => IsPlain(unit)
    case LineCommentToken(comment, terminator) => OneLine(comment) && IsLineEnd(terminator)
    case BlockCommentToken(remark) => NoCommentEnd(remark)
    case _ => true
  }

  function Spell(token: Token): Text {
    match token
    case OpenToken(curly) => [if curly then OPEN_OBJECT else OPEN_ARRAY]
    case CloseToken(curly) => [if curly then CLOSE_OBJECT else CLOSE_ARRAY]
    case StringToken(body) => [QUOTE] + (body + [QUOTE])
    case PlainToken(unit) => [unit]
    case LineCommentToken(comment, terminator) => [SLASH, SLASH] + (comment + [terminator])
    case BlockCommentToken(remark) => [SLASH, STAR] + (remark + [STAR, SLASH])
  }

  function SpellAll(tokens: seq<Token>): Text {
    if tokens == [] then [] else Spell(tokens[0]) + SpellAll(tokens[1..])
  }

  // Whether the bracket depth of a token sequence, from a starting depth, exceeds the limit.
  function Deep(tokens: seq<Token>, depth: nat, limit: nat): bool {
    if tokens == [] then false
    else
      match tokens[0]
      case OpenToken(_) => depth + 1 > limit || Deep(tokens[1..], depth + 1, limit)
      case CloseToken(_) => Deep(tokens[1..], if depth > 0 then depth - 1 else 0, limit)
      case _ => Deep(tokens[1..], depth, limit)
  }

  lemma {:induction false} ScanString(body: Text, rest: Text, depth: nat, limit: nat)
    requires WellEscaped(body)
    ensures Scan(body + [QUOTE] + rest, InString(false), depth, limit) == Scan(rest, InCode, depth, limit)
  {
    var text := body + [QUOTE] + rest;
    if body == [] {
      assert text[1..] == rest;
    } else if body[0] == BACKSLASH {
      assert text[1..][1..] == body[2..] + [QUOTE] + rest;
      assert text[1..] != [];
      ScanString(body[2..], rest, depth, limit);
    } else {
      assert text[1..] == body[1..] + [QUOTE] + rest;
      ScanString(body[1..], rest, depth, limit);
    }
  }

  lemma {:induction false} ScanLineComment(comment: Text, terminator: CodeUnit, rest: Text, depth: nat, limit: nat)
    requires OneLine(comment) && IsLineEnd(terminator)
    ensures Scan(comment + [terminator] + rest, InLineComment, depth, limit) == Scan(rest, InCode, depth, limit)
  {
    var text := comment + [terminator] + rest;
    if comment == [] {
      assert text[1..] == rest;
    } else {
      assert text[1..] == comment[1..] + [terminator] + rest;
      ScanLineComment(comment[1..], terminator, rest, depth, limit);
    }
  }

  lemma {:induction false} ScanOpenLine(comment: Text, depth: nat, limit: nat)
    requires OneLine(comment)
    ensures !Scan(comment, InLineComment, depth, limit)
  {
    if comment != [] {
      ScanOpenLine(comment[1..], depth, limit);
    }
  }

  lemma {:induction false} ScanBlockComment(remark: Text, rest: Text, depth: nat, limit: nat)
    requires NoCommentEnd(remark)
    ensures Scan(remark + [STAR, SLASH] + rest, InBlockComment, depth, limit) == Scan(rest, InCode, depth, limit)
  {
    var text := remark + [STAR, SLASH] + rest;
    if remark == [] {
      assert text[2..] == rest;
    } else {
      assert text[1..] == remark[1..] + [STAR, SLASH] + rest;
      assert text[1] == if |remark| > 1 then remark[1] else STAR;
      ScanBlockComment(remark[1..], rest, depth, limit);
    }
  }

  lemma ScanSingle(c: CodeUnit, rest: Text, depth: nat, limit: nat)
    requires c != SLASH && c != QUOTE
    ensures Scan([c] + rest, InCode, depth, limit)
         == if c == OPEN_OBJECT || c == OPEN_ARRAY then depth + 1 > limit || Scan(rest, InCode, depth + 1, limit)
            else if c == CLOSE_OBJECT || c == CLOSE_ARRAY then Scan(rest, InCode, if depth > 0 then depth - 1 else 0, limit)
            else Scan(rest, InCode, depth, limit)
  {
    assert ([c] + rest)[1..] == rest;
  }

  lemma ScanDelimited(token: Token, rest: Text, depth: nat, limit: nat)
    requires WellFormed(token) && (token.StringToken? || token.LineCommentToken? || token.BlockCommentToken?)
    ensures Scan(Spell(token) + rest, InCode, depth, limit) == Scan(rest, InCode, depth, limit)
  {
    match token {
      case StringToken(body) => ScanStringToken(token, rest, depth, limit);
      case LineCommentToken(comment, terminator) => ScanCommentToken(token, rest, depth, limit);
      case BlockCommentToken(remark) => ScanCommentToken(token, rest, depth, limit);
    }
  }

  lemma ScanStringToken(token: Token, rest: Text, depth: nat, limit: nat)
    requires WellFormed(token) && token.StringToken?
    ensures Scan(Spell(token) + rest, InCode, depth, limit) == Scan(rest, InCode, depth, limit)
  {
    var text := Spell(token) + rest;
    assert text[1..] == token.body + [QUOTE] + rest;
    ScanString(token.body, rest, depth, limit);
  }

  lemma ScanCommentToken(token: Token, rest: Text, depth: nat, limit: nat)
    requires WellFormed(token) && (token.LineCommentToken? || token.BlockCommentToken?)
    ensures Scan(Spell(token) + rest, InCode, depth, limit) == Scan(rest, InCode, depth, limit)
  {
    var text := Spell(token) + rest;
    match token {
      case LineCommentToken(comment, terminator) =>
        assert text[2..] == comment + [terminator] + rest;
        ScanLineComment(comment, terminator, rest, depth, limit);
      case BlockCommentToken(remark) =>
        assert text[2..] == remark + [STAR, SLASH] + rest;
        ScanBlockComment(remark, rest, depth, limit);
    }
  }

  // Reading one token leaves the scanner between tokens, at the depth the token leads to.
  lemma ScanToken(token: Token, rest: Text, depth: nat, limit: nat)
    requires WellFormed(token)
    ensures Scan(Spell(token) + rest, InCode, depth, limit)
         == match token
            case OpenToken(_) => depth + 1 > limit || Scan(rest, InCode, depth + 1, limit)
            case CloseToken(_) => Scan(rest, InCode, if depth > 0 then depth - 1 else 0, limit)
            case _ => Scan(rest, InCode, depth, limit)
  {
    if token.StringToken? || token.LineCommentToken? || token.BlockCommentToken? {
      ScanDelimited(token, rest, depth, limit);
    } else {
      ScanSingle(Spell(token)[0], rest, depth, limit);
      assert Spell(token) == [Spell(token)[0]];
    }
  }

  // The scanner sees of a text exactly the brackets that are tokens: none inside strings and comments.
  lemma {:induction false} ScanTokens(tokens: seq<Token>, tail: Text, depth: nat, limit: nat)
    requires forall t :: t in tokens ==> WellFormed(t)
    requires forall d: nat :: !Scan(tail, InCode, d, limit)
    ensures Scan(SpellAll(tokens) + tail, InCode, depth, limit) == Deep(tokens, depth, limit)
  {
    if tokens == [] {
      assert SpellAll(tokens) + tail == tail;
    } else {
      var rest := SpellAll(tokens[1..]) + tail;
      assert SpellAll(tokens) + tail == Spell(tokens[0]) + rest;
      ScanToken(tokens[0], rest, depth, limit);
      var next: nat := match tokens[0]
        case OpenToken(_) => depth + 1
        case CloseToken(_) => if depth > 0 then depth - 1 else 0
        case _ => depth;
      ScanTokens(tokens[1..], tail, next, limit);
    }
  }

  // ----- JSON values and the texts that print them -----

  // Literals are numbers, true, false and null; strings and keys are given in source form.
  datatype Json =
    | Literal(units: Text)
    | StringValue(body: Text)
    | ArrayValue(items: seq<Json>)
    | ObjectValue(members: seq<Member>)

  datatype Member = Member(key: Text, value: Json)

  // How deeply objects and arrays are nested in a value.
  function Depth(value: Json): nat
    decreases value, 0
  {
    match value
    case ArrayValue(items) => 1 + ItemsDepth(items, 0)
    case ObjectValue(members) => 1 + MembersDepth(members, 0)
    case _ => 0
  }

  function ItemsDepth(items: seq<Json>, from: nat): nat
    requires from <= |items|
    decreases items, |items| - from
  {
    if from == |items| then 0 else Max(Depth(items[from]), ItemsDepth(items, from + 1))
  }

  function MembersDepth(members: seq<Member>, from: nat): nat
    requires from <= |members|
    decreases members, |members| - from
  {
    if from == |members| then 0 else Max(Depth(members[from].value), MembersDepth(members, from + 1))
  }

  function Max(a: nat, b: nat): nat {
    if a < b then b else a
  }

  function PlainTokens(units: Text): seq<Token> {
    seq(|units|, i requires 0 <= i < |units| => PlainToken(units[i]))
  }

  function Tokens(value: Json): seq<Token>
    decreases value, 0
  {
    match value
    case Literal(units) => PlainTokens(units)
    case StringValue(body) => [StringToken(body)]
    case ArrayValue(items) => [OpenToken(false)] + (ItemsTokens(items, 0) + [CloseToken(false)])
    case ObjectValue(members) => [OpenToken(true)] + (MembersTokens(members, 0) + [CloseToken(true)])
  }

  function Separator(from: nat, count: nat): seq<Token> {
    if from + 1 < count then [PlainToken(COMMA)] else []
  }

  function ItemsTokens(items: seq<Json>, from: nat): seq<Token>
    requires from <= |items|
    decreases items, |items| - from
  {
    if from == |items| then []
    else Tokens(items[from]) + (Separator(from, |items|) + ItemsTokens(items, from + 1))
  }

  function MembersTokens(members: seq<Member>, from: nat): seq<Token>
    requires from <= |members|
    decreases members, |members| - from
  {
    if from == |members| then []
    else
      [StringToken(members[from].key), PlainToken(COLON)]
      + (Tokens(members[from].value) + (Separator(from, |members|) + MembersTokens(members, from + 1)))
  }

  predicate IsTrivia(token: Token) {
    token.LineCommentToken? || token.BlockCommentToken? || (token.PlainToken? && token.unit in {9, 10, 13, 32})
  }

  // The tokens that are not comments or white space.
  function Significant(tokens: seq<Token>): seq<Token> {
    if tokens == [] then []
    else if IsTrivia(tokens[0]) then Significant(tokens[1..])
    else [tokens[0]] + Significant(tokens[1..])
  }

  // A text prints a value when its tokens are those of the value, up to comments and white space between them;
  // it may end in a comment that no line end closes.
  ghost predicate Prints(text: Text, value: Json) {
    exists tokens, comment :: PrintsAs(text, value, tokens, comment)
  }

  ghost predicate PrintsAs(text: Text, value: Json, tokens: seq<Token>, comment: Text) {
    && (forall t :: t in tokens ==> WellFormed(t)) && OneLine(comment)
    && Significant(tokens) == Significant(Tokens(value))
    && (text == SpellAll(tokens) || text == SpellAll(tokens) + ([SLASH, SLASH] + comment))
  }

  lemma {:induction false} DeepSignificant(tokens: seq<Token>, depth: nat, limit: nat)
    ensures Deep(Significant(tokens), depth, limit) == Deep(tokens, depth, limit)
  {
    if tokens != [] {
      var rest := Significant(tokens[1..]);
      var next: nat := match tokens[0]
        case OpenToken(_) => depth + 1
        case CloseToken(_) => if depth > 0 then depth - 1 else 0
        case _ => depth;
      DeepSignificant(tokens[1..], next, limit);
      assert ([tokens[0]] + rest)[1..] == rest;
    }
  }

  lemma {:induction false} DeepPlain(units: Text, rest: seq<Token>, depth: nat, limit: nat)
    ensures Deep(PlainTokens(units) + rest, depth, limit) == Deep(rest, depth, limit)
  {
    if units == [] {
      assert PlainTokens(units) + rest == rest;
    } else {
      assert (PlainTokens(units) + rest)[1..] == PlainTokens(units[1..]) + rest;
      DeepPlain(units[1..], rest, depth, limit);
    }
  }

  lemma DeepSeparator(from: nat, count: nat, rest: seq<Token>, depth: nat, limit: nat)
    ensures Deep(Separator(from, count) + rest, depth, limit) == Deep(rest, depth, limit)
  {
    assert Separator(from, count) == [] ==> Separator(from, count) + rest == rest;
    assert Separator(from, count) != [] ==> (Separator(from, count) + rest)[1..] == rest;
  }

  lemma DeepOpen(curly: bool, inside: seq<Token>, rest: seq<Token>, depth: nat, limit: nat)
    ensures Deep([OpenToken(curly)] + (inside + [CloseToken(curly)]) + rest, depth, limit)
      <==> depth + 1 > limit || Deep(inside + ([CloseToken(curly)] + rest), depth + 1, limit)
  {
    assert ([OpenToken(curly)] + (inside + [CloseToken(curly)]) + rest)[1..] == inside + ([CloseToken(curly)] + rest);
  }

  // The tokens of a value reach exactly its nesting depth and come back to where they started.
  lemma {:induction false} DeepTokens(value: Json, rest: seq<Token>, depth: nat, limit: nat)
    requires depth <= limit
    ensures Deep(Tokens(value) + rest, depth, limit) <==> depth + Depth(value) > limit || Deep(rest, depth, limit)
    decreases value, 0
  {
    match value {
      case Literal(units) => DeepPlain(units, rest, depth, limit);
      case StringValue(body) =>
        assert (Tokens(value) + rest)[1..] == rest;
      case ArrayValue(items) =>
        DeepOpen(false, ItemsTokens(items, 0), rest, depth, limit);
        DeepClose(false, rest, depth, limit);
        if depth + 1 <= limit {
          DeepItems(items, 0, [CloseToken(false)] + rest, depth + 1, limit);
        }
      case ObjectValue(members) =>
        DeepOpen(true, MembersTokens(members, 0), rest, depth, limit);
        DeepClose(true, rest, depth, limit);
        if depth + 1 <= limit {
          DeepMembers(members, 0, [CloseToken(true)] + rest, depth + 1, limit);
        }
    }
  }

  lemma DeepClose(curly: bool, rest: seq<Token>, depth: nat, limit: nat)
    ensures Deep([CloseToken(curly)] + rest, depth + 1, limit) == Deep(rest, depth, limit)
  {
    assert ([CloseToken(curly)] + rest)[1..] == rest;
  }

  lemma {:induction false} DeepItems(items: seq<Json>, from: nat, rest: seq<Token>, depth: nat, limit: nat)
    requires from <= |items| && depth <= limit
    ensures Deep(ItemsTokens(items, from) + rest, depth, limit) <==> depth + ItemsDepth(items, from) > limit || Deep(rest, depth, limit)
    decreases items, |items| - from
  {
    if from == |items| {
      assert ItemsTokens(items, from) + rest == rest;
    } else {
      var later := ItemsTokens(items, from + 1) + rest;
      assert ItemsTokens(items, from) + rest == Tokens(items[from]) + (Separator(from, |items|) + later);
      DeepTokens(items[from], Separator(from, |items|) + later, depth, limit);
      DeepSeparator(from, |items|, later, depth, limit);
      DeepItems(items, from + 1, rest, depth, limit);
    }
  }

  lemma DeepKey(key: Text, valued: seq<Token>, depth: nat, limit: nat)
    ensures Deep([StringToken(key), PlainToken(COLON)] + valued, depth, limit) == Deep(valued, depth, limit)
  {
    assert ([StringToken(key), PlainToken(COLON)] + valued)[1..] == [PlainToken(COLON)] + valued;
    assert ([PlainToken(COLON)] + valued)[1..] == valued;
  }

  lemma {:induction false} DeepMembers(members: seq<Member>, from: nat, rest: seq<Token>, depth: nat, limit: nat)
    requires from <= |members| && depth <= limit
    ensures Deep(MembersTokens(members, from) + rest, depth, limit) <==> depth + MembersDepth(members, from) > limit || Deep(rest, depth, limit)
    decreases members, |members| - from
  {
    if from == |members| {
      assert MembersTokens(members, from) + rest == rest;
    } else {
      var value, later := members[from].value, MembersTokens(members, from + 1) + rest;
      var valued := Tokens(value) + (Separator(from, |members|) + later);
      assert MembersTokens(members, from) + rest == [StringToken(members[from].key), PlainToken(COLON)] + valued;
      DeepKey(members[from].key, valued, depth, limit);
      DeepTokens(value, Separator(from, |members|) + later, depth, limit);
      DeepSeparator(from, |members|, later, depth, limit);
      DeepMembers(members, from + 1, rest, depth, limit);
    }
  }

  // On every text that prints a JSON value, the scanner answers whether the value is nested deeper than the limit.
  lemma ScannerExact(text: Text, value: Json, limit: nat)
    requires Prints(text, value)
    ensures Scan(text, InCode, 0, limit) <==> Depth(value) > limit
  {
    var tokens, comment :| PrintsAs(text, value, tokens, comment);
    var tail: Text := if text == SpellAll(tokens) then [] else [SLASH, SLASH] + comment;
    assert text == SpellAll(tokens) + tail;
    forall d: nat ensures !Scan(tail, InCode, d, limit) {
      if tail != [] {
        assert tail[2..] == comment;
        ScanOpenLine(comment, d, limit);
      }
    }
    ScanTokens(tokens, tail, 0, limit);
    DeepSignificant(tokens, 0, limit);
    DeepSignificant(Tokens(value), 0, limit);
    DeepTokens(value, [], 0, limit);
    assert Tokens(value) + [] == Tokens(value);
  }
}
