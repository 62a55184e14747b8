/**
 TypeLayout: where a printed declaration has spaces and parentheses. The tokens alone determine the spaces, and parentheses
 stand only around a star that a suffix would otherwise take away.
 */
module TypeLayout {
  import opened Expressions
  import opened TypePrinter

  // ----- Parentheses -----

  /** The declarator under the parentheses, if there are any. */
  ghost function Bare(shape: Shape): Shape {
    if shape.Grouped? then shape.d else shape
  }

  /** Nothing is in parentheses but stars that a suffix follows. */
  ghost predicate Lean(shape: Shape) {
    match shape
    case Named(_) => true
    case Suffixed(d, _) => if d.Grouped? then d.d.Starred? && Lean(d.d) else Lean(d)
    case Starred(d) => Lean(d)
    case Grouped(_) => false
  }

  /** The declarators that PrintText is about have no parentheses that are not needed. */
  lemma {:induction false} WrappedLean(t: CType, shape: Shape)
    requires if shape.Grouped? then (t.Array? || t.Function?) && shape.d.Starred? && Lean(shape.d) else Lean(shape)
    ensures Lean(Wrapped(t, shape))
    decreases t
  {
    match t {
      case Pointer(nested) => WrappedLean(nested, if Wraps(nested) then Grouped(Starred(shape)) else Starred(shape));
      case Array(nested, size) => WrappedLean(nested, Suffixed(shape, Holds(size)));
      case Function(result, parameters) => WrappedLean(result, Suffixed(shape, Takes(parameters)));
      case _ =>
    }
  }

  /** A printed declaration is its root type and a declarator without needless parentheses. */
  lemma DeclarationLean(t: CType, name: Option<nat>) returns (shape: Shape)
    ensures !Root(t).Pointer? && !Wraps(Root(t)) && Strip(Declare(t, name)) == RootText(Root(t)) + Text(shape)
    ensures Lean(shape) && NameOf(shape) == name && Layers(shape) == LayersOf(t)
  {
    var named := Named(name);
    shape := Wrapped(t, named);
    assert Strip(NameTokens(name)) == Text(named);
    PrintText(t, NameTokens(name), named);
    WrappedProper(t, named);
    WrappedLean(t, named);
    assert [] + LayersOf(t) == LayersOf(t);
  }

  // ----- Spaces -----

  predicate IsBase(t: Token) {
    t.VoidWord? || t.BoolWord? || t.IntWord? || t.StructWord?
  }

  /** Whether a space follows a token before the next one. */
  predicate Parted(t: Token, next: Option<Token>) {
    match t
    case StructWord | RightBrace | Comma | Semicolon => true
    case LeftBrace => next.Some? && !next.value.RightBrace?
    case VoidWord | BoolWord | IntWord(_, _) | Star => next.Some? && IsWord(next.value)
    case _ => false
  }

  function First(ts: Tokens, next: Option<Token>): Option<Token> {
    if ts == [] then next else Some(ts[0])
  }

  /** The tokens with the spaces that belong between them and before the token after them. */
  function Respaced(ts: Tokens, next: Option<Token>): Tokens {
    if ts == [] then []
    else [ts[0]] + (if Parted(ts[0], First(ts[1..], next)) then [Space] else []) + Respaced(ts[1..], next)
  }

  ghost predicate LaidBefore(ts: Tokens, next: Option<Token>) {
    ts == Respaced(Strip(ts), next)
  }

  predicate IsQuiet(next: Option<Token>) {
    next.Some? ==> !IsWord(next.value) && next.value != Space
  }

  /** Laid out before anything that is no word. */
  ghost predicate Sits(ts: Tokens) {
    (ts != [] ==> ts[0] != Space) && forall next :: IsQuiet(next) ==> LaidBefore(ts, next)
  }

  /** Laid out before anything. */
  ghost predicate Firm(ts: Tokens) {
    (ts != [] ==> ts[0] != Space) && forall next :: LaidBefore(ts, next)
  }

  lemma {:induction false} RespacedConcat(a: Tokens, b: Tokens, next: Option<Token>)
    ensures Respaced(a + b, next) == Respaced(a, First(b, next)) + Respaced(b, next)
    decreases |a|
  {
    if a == [] {
      assert a + b == b;
    } else {
      assert (a + b)[1..] == a[1..] + b;
      RespacedConcat(a[1..], b, next);
      assert First(a[1..] + b, next) == First(a[1..], First(b, next));
    }
  }

  lemma LaidConcat(a: Tokens, b: Tokens, next: Option<Token>)
    requires LaidBefore(a, First(Strip(b), next)) && LaidBefore(b, next)
    ensures LaidBefore(a + b, next)
  {
    StripConcat(a, b);
    RespacedConcat(Strip(a), Strip(b), next);
  }

  lemma StripFirst(ts: Tokens)
    requires ts != [] ==> ts[0] != Space
    ensures forall next :: First(Strip(ts), next) == First(ts, next)
  {
  }

  lemma SitsConcat(a: Tokens, b: Tokens)
    requires Sits(a) && Sits(b) && (b != [] ==> !IsWord(b[0]))
    ensures Sits(a + b)
  {
    StripFirst(b);
    forall next | IsQuiet(next) ensures LaidBefore(a + b, next) {
      LaidConcat(a, b, next);
    }
  }

  lemma FirmSits(a: Tokens, b: Tokens)
    requires Firm(a) && Sits(b)
    ensures Sits(a + b)
  {
    forall next | IsQuiet(next) ensures LaidBefore(a + b, next) {
      LaidConcat(a, b, next);
    }
  }

  lemma FirmConcat(a: Tokens, b: Tokens)
    requires Firm(a) && Firm(b)
    ensures Firm(a + b)
  {
    forall next ensures LaidBefore(a + b, next) {
      LaidConcat(a, b, next);
    }
  }

  lemma SitsFirm(a: Tokens, b: Tokens)
    requires Sits(a) && Firm(b) && b != [] && !IsWord(b[0])
    ensures Firm(a + b)
  {
    StripFirst(b);
    forall next ensures LaidBefore(a + b, next) {
      LaidConcat(a, b, next);
    }
  }

  /** A token that no space follows, whatever comes next. */
  lemma OneFirm(t: Token)
    requires t != Space && forall next :: !Parted(t, next)
    ensures Firm([t])
  {
    StripSingle(t);
    forall next ensures LaidBefore([t], next) {
      assert Respaced([t], next) == [t] + [] + Respaced([t][1..], next);
    }
  }

  /** A token that a space follows, whatever comes next. */
  lemma SpacedFirm(t: Token)
    requires t != Space && forall next :: Parted(t, next)
    ensures Firm([t, Space])
  {
    StripSpaced(t);
    forall next ensures LaidBefore([t, Space], next) {
      assert Respaced([t], next) == [t] + [Space] + Respaced([t][1..], next);
    }
  }

  /** A word or a star, and what follows it. */
  lemma LeadSits(t: Token, middle: Tokens)
    requires (IsBase(t) && !t.StructWord?) || t.Star?
    requires Sits(middle)
    ensures Sits([t] + Middle(middle))
  {
    StripMiddle(middle);
    StripSingle(t);
    StripConcat([t], Middle(middle));
    StripFirst(middle);
    var text := Strip(middle);
    forall next | IsQuiet(next) ensures LaidBefore([t] + Middle(middle), next) {
      assert LaidBefore(middle, next);
      assert ([t] + text)[1..] == text;
      assert Respaced([t] + text, next) == [t] + (if Parted(t, First(text, next)) then [Space] else []) + middle;
    }
  }

  lemma BracketsSit(size: nat)
    ensures Firm([LeftBracket, Count(size), RightBracket])
  {
    OneFirm(LeftBracket);
    OneFirm(Count(size));
    OneFirm(RightBracket);
    FirmConcat([LeftBracket], [Count(size)]);
    FirmConcat([LeftBracket] + [Count(size)], [RightBracket]);
    assert [LeftBracket] + [Count(size)] + [RightBracket] == [LeftBracket, Count(size), RightBracket];
  }

  lemma GroupSits(inner: Tokens)
    requires Sits(inner) && inner != [] && inner[0] == Star
    ensures Sits([LeftParen] + inner + [RightParen])
  {
    OneFirm(LeftParen);
    OneFirm(RightParen);
    FirmSits([LeftParen], inner);
    SitsConcat([LeftParen] + inner, [RightParen]);
  }

  /** What is before the first field, or before the end if there is none. */
  lemma HeadFirm(fields: Tokens)
    requires Firm(fields) && (fields != [] ==> IsBase(fields[0]))
    ensures Firm([StructWord, Space, LeftBrace] + (if fields == [] then [] else [Space]) + fields + [RightBrace, Space])
  {
    SpacedFirm(StructWord);
    SpacedFirm(RightBrace);
    var rest := fields + [RightBrace, Space];
    FirmConcat(fields, [RightBrace, Space]);
    StripFirst(rest);
    var brace := [LeftBrace] + if fields == [] then [] else [Space];
    assert Strip(brace) == [LeftBrace] by {
      StripSingle(LeftBrace);
      StripSpaced(LeftBrace);
    }
    forall next ensures LaidBefore(brace + rest, next) {
      assert Respaced([LeftBrace], First(rest, next)) == brace;
      LaidConcat(brace, rest, next);
    }
    FirmConcat([StructWord, Space], brace + rest);
    assert [StructWord, Space] + (brace + rest)
        == [StructWord, Space, LeftBrace] + (if fields == [] then [] else [Space]) + fields + [RightBrace, Space];
  }

  lemma {:induction false} PrintLaid(t: CType, middle: Tokens)
    requires Sits(middle)
    ensures Sits(Print(t, middle)) && Print(t, middle) != [] && IsBase(Print(t, middle)[0])
    decreases t
  {
    match t {
      case Void => LeadSits(VoidWord, middle);
      case Integer(signed, bits) => LeadSits(IntegerToken(signed, bits), middle);
      case Pointer(nested) =>
        LeadSits(Star, middle);
        GroupSits([Star] + Middle(middle));
        assert [LeftParen] + ([Star] + Middle(middle)) + [RightParen] == [LeftParen, Star] + Middle(middle) + [RightParen];
        PrintLaid(nested, if Wraps(nested) then [LeftParen, Star] + Middle(middle) + [RightParen] else [Star] + Middle(middle));
      case Array(nested, size) =>
        BracketsSit(size);
        SitsFirm(middle, [LeftBracket, Count(size), RightBracket]);
        PrintLaid(nested, middle + [LeftBracket, Count(size), RightBracket]);
      case Struct(fields) =>
        FieldsLaid(fields);
        HeadFirm(PrintFields(fields));
        FirmSits([StructWord, Space, LeftBrace] + (if fields == [] then [] else [Space]) + PrintFields(fields) + [RightBrace, Space],
                 middle);
      case Function(result, parameters) =>
        ParametersLaid(parameters);
        OneFirm(LeftParen);
        OneFirm(RightParen);
        SitsFirm(middle, [LeftParen]);
        FirmSits(middle + [LeftParen], PrintParameters(parameters));
        SitsConcat(middle + [LeftParen] + PrintParameters(parameters), [RightParen]);
        PrintLaid(result, middle + [LeftParen] + PrintParameters(parameters) + [RightParen]);
    }
  }

  lemma NameSits(name: Option<nat>)
    ensures Sits(NameTokens(name))
  {
    if name.Some? {
      OneFirm(Identifier(name.value));
    }
  }

  lemma {:induction false} FieldLaid(field: Field)
    ensures Sits(PrintField(field)) && PrintField(field) != [] && IsBase(PrintField(field)[0])
    decreases field
  {
    NameSits(field.name);
    PrintLaid(field.kind, NameTokens(field.name));
  }

  lemma {:induction false} FieldsLaid(fields: seq<Field>)
    ensures Firm(PrintFields(fields)) && (PrintFields(fields) == [] <==> fields == [])
    ensures fields != [] ==> IsBase(PrintFields(fields)[0])
    decreases fields
  {
    if fields != [] {
      FieldLaid(fields[0]);
      FieldsLaid(fields[1..]);
      SpacedFirm(Semicolon);
      SitsFirm(PrintField(fields[0]), [Semicolon, Space]);
      FirmConcat(PrintField(fields[0]) + [Semicolon, Space], PrintFields(fields[1..]));
    }
  }

  lemma {:induction false} MoreLaid(parameters: seq<Field>)
    ensures Sits(PrintMore(parameters)) && (PrintMore(parameters) != [] ==> PrintMore(parameters)[0] == Comma)
    decreases parameters
  {
    if parameters != [] {
      FieldLaid(parameters[0]);
      MoreLaid(parameters[1..]);
      SpacedFirm(Comma);
      FirmSits([Comma, Space], PrintField(parameters[0]));
      SitsConcat([Comma, Space] + PrintField(parameters[0]), PrintMore(parameters[1..]));
    }
  }

  lemma {:induction false} ParametersLaid(parameters: seq<Field>)
    ensures Sits(PrintParameters(parameters))
    decreases parameters
  {
    if parameters != [] {
      FieldLaid(parameters[0]);
      MoreLaid(parameters[1..]);
      SitsConcat(PrintField(parameters[0]), PrintMore(parameters[1..]));
    }
  }

  /** Without its spaces, a printed declaration has lost nothing: they are where the tokens say. */
  lemma LayoutExact(t: CType, name: Option<nat>)
    ensures Declare(t, name) == Respaced(Strip(Declare(t, name)), None)
  {
    NameSits(name);
    PrintLaid(t, NameTokens(name));
    assert IsQuiet(None);
    assert LaidBefore(Declare(t, name), None);
  }
}
