/**
 TypePrinter: C declarations from types, written inside out, and a parser for the declarators of C (sections 6.7.6 and
 6.7.7 of ISO/IEC 9899:2011) that reads them back. Text is a sequence of tokens, spaces included.
 */
module TypePrinter {
  import opened Expressions

  /** A structure here is one without a name. */
  datatype CType =
    | Void
    | Integer(signed: bool, bits: nat)
    | Pointer(nested: CType)
    | Array(nested: CType, size: nat)
    | Struct(fields: seq<Field>)
    | Function(result: CType, parameters: seq<Field>)

  datatype Field = Field(kind: CType, name: Option<nat>)

  datatype Token =
    | VoidWord | BoolWord | IntWord(signed: bool, bits: nat) | StructWord | Identifier(id: nat) | Count(n: nat)
    | Star | LeftBracket | RightBracket | LeftParen | RightParen | LeftBrace | RightBrace | Comma | Semicolon | Space

  type Tokens = seq<Token>

  // ----- The printer -----

  /** The tokens that a type name or another word may not touch. */
  predicate IsWord(t: Token) {
    t.VoidWord? || t.BoolWord? || t.IntWord? || t.StructWord? || t.Identifier? || t.Count?
  }

  /** printMiddleIfAny */
  function Middle(middle: Tokens): Tokens {
    if middle == [] then [] else if IsWord(middle[0]) then [Space] + middle else middle
  }

  function NameTokens(name: Option<nat>): Tokens {
    if name.None? then [] else [Identifier(name.value)]
  }

  function IntegerToken(signed: bool, bits: nat): Token {
    if bits == 1 then BoolWord else IntWord(signed, bits)
  }

  predicate Wraps(nested: CType) {
    nested.Array? || nested.Function?
  }

  function Print(t: CType, middle: Tokens): Tokens
    decreases t
  {
    match t
    case Void => [VoidWord] + Middle(middle)
    case Integer(signed, bits) => [IntegerToken(signed, bits)] + Middle(middle)
    case Pointer(nested) =>
      Print(nested, if Wraps(nested) then [LeftParen, Star] + Middle(middle) + [RightParen] else [Star] + Middle(middle))
    case Array(nested, size) => Print(nested, middle + [LeftBracket, Count(size), RightBracket])
    case Struct(fields) =>
      [StructWord, Space, LeftBrace] + (if fields == [] then [] else [Space]) + PrintFields(fields) + [RightBrace, Space] + middle
    case Function(result, parameters) => Print(result, middle + [LeftParen] + PrintParameters(parameters) + [RightParen])
  }

  function PrintField(field: Field): Tokens
    decreases field
  {
    Print(field.kind, NameTokens(field.name))
  }

  function PrintFields(fields: seq<Field>): Tokens
    decreases fields
  {
    if fields == [] then [] else
      PrintField(fields[0]) + [Semicolon, Space] + PrintFields(fields[1..])
  }

  function PrintParameters(parameters: seq<Field>): Tokens
    decreases parameters
  {
    if parameters == [] then [] else
      PrintField(parameters[0]) + PrintMore(parameters[1..])
  }

  function PrintMore(parameters: seq<Field>): Tokens
    decreases parameters
  {
    if parameters == [] then [] else
      [Comma, Space] + PrintField(parameters[0]) + PrintMore(parameters[1..])
  }

  // ----- The parser -----

  datatype Layer = Points | Holds(size: nat) | Takes(parameters: seq<Field>)

  datatype Parsed<T> = Failed | Parsed(value: T, rest: Tokens)

  datatype Declarator = Declarator(layers: seq<Layer>, name: Option<nat>)

  /** The type of a name whose layers, the nearest first, end at `base`. */
  function Build(layers: seq<Layer>, base: CType): CType {
    if layers == [] then base else
      var inner := Build(layers[1..], base);
      match layers[0]
      case Points => Pointer(inner)
      case Holds(size) => Array(inner, size)
      case Takes(parameters) => Function(inner, parameters)
  }

  function ParseDeclaration(ts: Tokens): (r: Parsed<Field>)
    ensures r.Parsed? ==> |r.rest| < |ts|
    decreases |ts|, 3
  {
    var base := ParseBase(ts);
    if base.Failed? then Failed else
      var d := ParseDeclarator(base.rest);
      if d.Failed? then Failed else Parsed(Field(Build(d.value.layers, base.value), d.value.name), d.rest)
  }

  function ParseBase(ts: Tokens): (r: Parsed<CType>)
    ensures r.Parsed? ==> |r.rest| < |ts|
    decreases |ts|, 2
  {
    if ts == [] then Failed else
      match ts[0]
      case VoidWord => Parsed(Void, ts[1..])
      case BoolWord => Parsed(Integer(false, 1), ts[1..])
      case IntWord(signed, bits) => Parsed(Integer(signed, bits), ts[1..])
      case StructWord =>
        if |ts| < 2 || ts[1] != LeftBrace then Failed else
          var fields := ParseFields(ts[2..]);
          if fields.Failed? then Failed else Parsed(Struct(fields.value), fields.rest)
      case _ => Failed
  }

  function ParseFields(ts: Tokens): (r: Parsed<seq<Field>>)
    ensures r.Parsed? ==> |r.rest| < |ts|
    decreases |ts|, 4
  {
    if ts == [] then Failed
    else if ts[0] == RightBrace then Parsed([], ts[1..])
    else
      var first := ParseDeclaration(ts);
      if first.Failed? || first.rest == [] || first.rest[0] != Semicolon then Failed else
        var more := ParseFields(first.rest[1..]);
        if more.Failed? then Failed else Parsed([first.value] + more.value, more.rest)
  }

  /** The parameters after a left parenthesis. */
  function ParseParameters(ts: Tokens): (r: Parsed<seq<Field>>)
    ensures r.Parsed? ==> |r.rest| < |ts|
    decreases |ts|, 5
  {
    if ts == [] then Failed
    else if ts[0] == RightParen then Parsed([], ts[1..])
    else
      var first := ParseDeclaration(ts);
      if first.Failed? then Failed else
        var more := ParseMore(first.rest);
        if more.Failed? then Failed else Parsed([first.value] + more.value, more.rest)
  }

  function ParseMore(ts: Tokens): (r: Parsed<seq<Field>>)
    ensures r.Parsed? ==> |r.rest| < |ts|
    decreases |ts|, 4
  {
    if ts == [] then Failed
    else if ts[0] == RightParen then Parsed([], ts[1..])
    else if ts[0] != Comma then Failed
    else
      var first := ParseDeclaration(ts[1..]);
      if first.Failed? then Failed else
        var more := ParseMore(first.rest);
        if more.Failed? then Failed else Parsed([first.value] + more.value, more.rest)
  }

  /** Stars apply to what follows them, after its suffixes. */
  function ParseDeclarator(ts: Tokens): (r: Parsed<Declarator>)
    ensures r.Parsed? ==> |r.rest| <= |ts|
    decreases |ts|, 1
  {
    if ts != [] && ts[0] == Star then
      var d := ParseDeclarator(ts[1..]);
      if d.Failed? then Failed else Parsed(d.value.(layers := d.value.layers + [Points]), d.rest)
    else if |ts| > 1 && ts[0] == LeftParen && ts[1] == Star then
      // a parenthesised declarator
      var d := ParseDeclarator(ts[1..]);
      if d.Failed? || d.rest == [] || d.rest[0] != RightParen then Failed else
        WithSuffixes(d.value, d.rest[1..])
    else if ts != [] && ts[0].Identifier? then WithSuffixes(Declarator([], Some(ts[0].id)), ts[1..])
    else WithSuffixes(Declarator([], None), ts)
  }

  function WithSuffixes(d: Declarator, ts: Tokens): (r: Parsed<Declarator>)
    ensures r.Parsed? ==> |r.rest| <= |ts|
    decreases |ts|, 0
  {
    if |ts| > 2 && ts[0] == LeftBracket && ts[1].Count? && ts[2] == RightBracket then
      WithSuffixes(d.(layers := d.layers + [Holds(ts[1].n)]), ts[3..])
    else if ts != [] && ts[0] == LeftParen then
      var parameters := ParseParameters(ts[1..]);
      if parameters.Failed? then Failed else
        WithSuffixes(d.(layers := d.layers + [Takes(parameters.value)]), parameters.rest)
    else Parsed(d, ts)
  }

  // ----- Declarators as trees -----

  function Strip(ts: Tokens): Tokens {
    if ts == [] then [] else (if ts[0] == Space then [] else [ts[0]]) + Strip(ts[1..])
  }

  lemma {:induction false} StripConcat(a: Tokens, b: Tokens)
    ensures Strip(a + b) == Strip(a) + Strip(b)
    decreases |a|
  {
    if a == [] {
      assert a + b == b;
    } else {
      var first := if a[0] == Space then [] else [a[0]];
      StripConcat(a[1..], b);
      assert (a + b)[0] == a[0] && (a + b)[1..] == a[1..] + b;
      assert Strip(a + b) == first + Strip(a[1..] + b);
      assert first + (Strip(a[1..]) + Strip(b)) == (first + Strip(a[1..])) + Strip(b);
    }
  }

  lemma StripMiddle(middle: Tokens)
    ensures Strip(Middle(middle)) == Strip(middle)
  {
    if middle != [] && IsWord(middle[0]) {
      assert ([Space] + middle)[1..] == middle;
    }
  }

  datatype Shape = Named(name: Option<nat>) | Suffixed(d: Shape, layer: Layer) | Starred(d: Shape) | Grouped(d: Shape)

  /** A declarator that suffixes apply to. */
  ghost predicate Direct(shape: Shape) {
    !shape.Starred?
  }

  ghost predicate Proper(shape: Shape) {
    match shape
    case Named(_) => true
    case Suffixed(d, layer) => Proper(d) && Direct(d) && !layer.Points?
    case Starred(d) => Proper(d)
    case Grouped(d) => Proper(d) && d.Starred?
  }

  ghost function ParametersText(parameters: seq<Field>): Tokens {
    Strip(PrintParameters(parameters))
  }

  ghost function LayerText(layer: Layer): Tokens {
    match layer
    case Points => []
    case Holds(size) => [LeftBracket, Count(size), RightBracket]
    case Takes(parameters) => [LeftParen] + ParametersText(parameters) + [RightParen]
  }

  ghost function Text(shape: Shape): Tokens {
    match shape
    case Named(name) => NameTokens(name)
    case Suffixed(d, layer) => Text(d) + LayerText(layer)
    case Starred(d) => [Star] + Text(d)
    case Grouped(d) => [LeftParen] + Text(d) + [RightParen]
  }

  ghost function Layers(shape: Shape): seq<Layer> {
    match shape
    case Named(_) => []
    case Suffixed(d, layer) => Layers(d) + [layer]
    case Starred(d) => Layers(d) + [Points]
    case Grouped(d) => Layers(d)
  }

  ghost function NameOf(shape: Shape): Option<nat> {
    if shape.Named? then shape.name else NameOf(shape.d)
  }

  ghost function SuffixText(layers: seq<Layer>): Tokens {
    if layers == [] then [] else LayerText(layers[0]) + SuffixText(layers[1..])
  }

  /** The text after a declarator does not continue it. */
  ghost predicate Ends(rest: Tokens) {
    rest == [] || rest[0] in {Comma, RightParen, Semicolon}
  }

  ghost predicate ReadsBack(parameters: seq<Field>) {
    && (forall rest :: ParseParameters(ParametersText(parameters) + ([RightParen] + rest)) == Parsed(parameters, rest))
    && (ParametersText(parameters) == [] || ParametersText(parameters)[0] != Star)
  }

  ghost predicate AllReadBack(layers: seq<Layer>) {
    forall i :: 0 <= i < |layers| && layers[i].Takes? ==> ReadsBack(layers[i].parameters)
  }

  ghost predicate NoPoints(layers: seq<Layer>) {
    forall i :: 0 <= i < |layers| ==> !layers[i].Points?
  }

  lemma Associate<T>(a: seq<T>, b: seq<T>, c: seq<T>)
    ensures (a + b) + c == a + (b + c)
  {
  }

  lemma AssociateFour<T>(a: seq<T>, b: seq<T>, c: seq<T>, d: seq<T>)
    ensures (a + b) + (c + d) == a + ((b + c) + d)
  {
  }

  lemma Enclosed<T>(x: T, inner: seq<T>, y: T, more: seq<T>)
    ensures ([x] + inner + [y]) + more == [x] + (inner + ([y] + more))
    ensures ([x] + (inner + ([y] + more)))[1..] == inner + ([y] + more)
    ensures ([y] + more)[1..] == more
  {
  }

  lemma ReadHolds(d: Declarator, size: nat, more: Tokens)
    ensures WithSuffixes(d, LayerText(Holds(size)) + more) == WithSuffixes(d.(layers := d.layers + [Holds(size)]), more)
  {
    var ts := LayerText(Holds(size)) + more;
    assert ts[0] == LeftBracket && ts[1] == Count(size) && ts[2] == RightBracket && ts[3..] == more;
  }

  lemma ReadTakes(d: Declarator, parameters: seq<Field>, more: Tokens)
    requires ReadsBack(parameters)
    ensures WithSuffixes(d, LayerText(Takes(parameters)) + more) == WithSuffixes(d.(layers := d.layers + [Takes(parameters)]), more)
  {
    Enclosed(LeftParen, ParametersText(parameters), RightParen, more);
  }

  lemma SuffixSplit(layers: seq<Layer>, rest: Tokens)
    requires layers != [] && AllReadBack(layers)
    ensures SuffixText(layers) + rest == LayerText(layers[0]) + (SuffixText(layers[1..]) + rest)
    ensures AllReadBack(layers[1..]) && (layers[0].Takes? ==> ReadsBack(layers[0].parameters))
  {
    assert forall i :: 0 <= i < |layers| - 1 ==> layers[1..][i] == layers[i + 1];
    Associate(LayerText(layers[0]), SuffixText(layers[1..]), rest);
  }

  lemma ReadLayer(d: Declarator, l: Layer, more: Tokens)
    requires !l.Points? && (l.Takes? ==> ReadsBack(l.parameters))
    ensures WithSuffixes(d, LayerText(l) + more) == WithSuffixes(d.(layers := d.layers + [l]), more)
  {
    if l.Holds? {
      ReadHolds(d, l.size, more);
    } else {
      ReadTakes(d, l.parameters, more);
    }
  }

  /** Suffixes are read one by one. */
  lemma {:induction false} ReadSuffixes(d: Declarator, layers: seq<Layer>, rest: Tokens)
    requires AllReadBack(layers) && NoPoints(layers) && Ends(rest)
    ensures WithSuffixes(d, SuffixText(layers) + rest) == Parsed(d.(layers := d.layers + layers), rest)
    decreases |layers|
  {
    if layers == [] {
      assert d.layers + [] == d.layers && [] + rest == rest;
    } else {
      var l := layers[0];
      SuffixSplit(layers, rest);
      ReadLayer(d, l, SuffixText(layers[1..]) + rest);
      ReadSuffixes(d.(layers := d.layers + [l]), layers[1..], rest);
      Associate(d.layers, [l], layers[1..]);
      assert [l] + layers[1..] == layers;
    }
  }

  lemma SuffixTextCons(l: Layer, layers: seq<Layer>)
    ensures SuffixText([l] + layers) == LayerText(l) + SuffixText(layers)
  {
    assert ([l] + layers)[1..] == layers;
  }

  lemma ReadNoName(layers: seq<Layer>, rest: Tokens)
    requires AllReadBack(layers) && NoPoints(layers) && Ends(rest)
    ensures ParseDeclarator(SuffixText(layers) + rest) == WithSuffixes(Declarator([], None), SuffixText(layers) + rest)
  {
    var ts := SuffixText(layers) + rest;
    if layers == [] {
      assert ts == rest;
    } else {
      SuffixSplit(layers, rest);
      FirstOfLayer(layers[0], SuffixText(layers[1..]) + rest);
    }
  }

  lemma FirstOfLayer(l: Layer, more: Tokens)
    requires !l.Points? && (l.Takes? ==> ReadsBack(l.parameters))
    ensures var ts := LayerText(l) + more;
      |ts| > 1 && (ts[0] == LeftBracket || (ts[0] == LeftParen && ts[1] != Star))
  {
    if l.Takes? {
      var inner := ParametersText(l.parameters);
      Enclosed(LeftParen, inner, RightParen, more);
      assert inner == [] ==> inner + ([RightParen] + more) == [RightParen] + more;
    }
  }

  lemma ReadName(id: nat, more: Tokens)
    ensures ParseDeclarator([Identifier(id)] + more) == WithSuffixes(Declarator([], Some(id)), more)
  {
    assert ([Identifier(id)] + more)[1..] == more;
  }

  lemma ReadGroup(inner: Tokens, d: Declarator, more: Tokens)
    requires inner != [] && inner[0] == Star
    requires ParseDeclarator(inner + ([RightParen] + more)) == Parsed(d, [RightParen] + more)
    ensures ParseDeclarator([LeftParen] + (inner + ([RightParen] + more))) == WithSuffixes(d, more)
  {
    Enclosed(LeftParen, inner, RightParen, more);
  }

  lemma ReadNamed(name: Option<nat>, layers: seq<Layer>, rest: Tokens)
    requires AllReadBack(layers) && NoPoints(layers) && Ends(rest)
    ensures ParseDeclarator(NameTokens(name) + (SuffixText(layers) + rest)) == Parsed(Declarator(layers, name), rest)
  {
    var more := SuffixText(layers) + rest;
    ReadSuffixes(Declarator([], name), layers, rest);
    assert [] + layers == layers;
    if name.Some? {
      ReadName(name.value, more);
    } else {
      ReadNoName(layers, rest);
      assert [] + more == more;
    }
  }

  /** A direct declarator is read with the suffixes that follow it. */
  lemma {:induction false} ReadDirect(shape: Shape, layers: seq<Layer>, rest: Tokens)
    requires Proper(shape) && Direct(shape) && AllReadBack(Layers(shape) + layers) && NoPoints(layers) && Ends(rest)
    ensures ParseDeclarator(Text(shape) + (SuffixText(layers) + rest))
         == Parsed(Declarator(Layers(shape) + layers, NameOf(shape)), rest)
    decreases shape, 0
  {
    match shape {
      case Named(name) =>
        assert [] + layers == layers;
        ReadNamed(name, layers, rest);
      case Suffixed(d, l) =>
        MoveLayer(d, l, layers, rest);
        ReadDirect(d, [l] + layers, rest);
      case Grouped(d) =>
        AllReadBackParts(Layers(d), layers);
        var more := SuffixText(layers) + rest;
        ReadShape(d, [RightParen] + more);
        ReadSuffixes(Declarator(Layers(d), NameOf(d)), layers, rest);
        ReadGroup(Text(d), Declarator(Layers(d), NameOf(d)), more);
        GroupText(d, more);
    }
  }

  lemma MoveLayer(d: Shape, l: Layer, layers: seq<Layer>, rest: Tokens)
    ensures Layers(Suffixed(d, l)) + layers == Layers(d) + ([l] + layers)
    ensures Text(Suffixed(d, l)) + (SuffixText(layers) + rest) == Text(d) + (SuffixText([l] + layers) + rest)
  {
    SuffixTextCons(l, layers);
    AssociateFour(Text(d), LayerText(l), SuffixText(layers), rest);
    Associate(Layers(d), [l], layers);
  }

  lemma GroupText(d: Shape, more: Tokens)
    ensures Text(Grouped(d)) + more == [LeftParen] + (Text(d) + ([RightParen] + more))
  {
    Enclosed(LeftParen, Text(d), RightParen, more);
  }

  lemma AllReadBackParts(a: seq<Layer>, b: seq<Layer>)
    requires AllReadBack(a + b)
    ensures AllReadBack(a) && AllReadBack(b)
  {
    assert forall i :: 0 <= i < |a| ==> (a + b)[i] == a[i];
    assert forall i :: 0 <= i < |b| ==> (a + b)[|a| + i] == b[i];
  }

  /** Every proper declarator is read back. */
  lemma {:induction false} ReadShape(shape: Shape, rest: Tokens)
    requires Proper(shape) && AllReadBack(Layers(shape)) && Ends(rest)
    ensures ParseDeclarator(Text(shape) + rest) == Parsed(Declarator(Layers(shape), NameOf(shape)), rest)
    decreases shape, 1
  {
    if shape.Starred? {
      AllReadBackParts(Layers(shape.d), [Points]);
      ReadShape(shape.d, rest);
      assert (Text(shape) + rest)[1..] == Text(shape.d) + rest;
    } else {
      assert Layers(shape) + [] == Layers(shape) && [] + rest == rest;
      ReadDirect(shape, [], rest);
    }
  }

  // ----- What the printer writes -----

  ghost function Root(t: CType): CType {
    match t
    case Pointer(nested) => Root(nested)
    case Array(nested, _) => Root(nested)
    case Function(result, _) => Root(result)
    case _ => t
  }

  ghost function LayersOf(t: CType): seq<Layer> {
    match t
    case Pointer(nested) => [Points] + LayersOf(nested)
    case Array(nested, size) => [Holds(size)] + LayersOf(nested)
    case Function(result, parameters) => [Takes(parameters)] + LayersOf(result)
    case _ => []
  }

  lemma {:induction false} BuildBack(t: CType)
    ensures Build(LayersOf(t), Root(t)) == t
    decreases t
  {
    match t {
      case Pointer(nested) => BuildBack(nested);
      case Array(nested, _) => BuildBack(nested);
      case Function(result, _) => BuildBack(result);
      case _ =>
    }
  }

  /** The declarator around `shape` that the layers of `t` make. */
  ghost function Wrapped(t: CType, shape: Shape): Shape {
    match t
    case Pointer(nested) => Wrapped(nested, if Wraps(nested) then Grouped(Starred(shape)) else Starred(shape))
    case Array(nested, size) => Wrapped(nested, Suffixed(shape, Holds(size)))
    case Function(result, parameters) => Wrapped(result, Suffixed(shape, Takes(parameters)))
    case _ => shape
  }

  /** Parentheses are where they are needed, so every declarator is proper. */
  lemma {:induction false} WrappedProper(t: CType, shape: Shape)
    requires Proper(shape) && (Wraps(t) ==> Direct(shape))
    ensures Proper(Wrapped(t, shape)) && NameOf(Wrapped(t, shape)) == NameOf(shape)
    ensures Layers(Wrapped(t, shape)) == Layers(shape) + LayersOf(t)
    decreases t
  {
    match t {
      case Pointer(nested) =>
        WrappedProper(nested, if Wraps(nested) then Grouped(Starred(shape)) else Starred(shape));
        Associate(Layers(shape), [Points], LayersOf(nested));
      case Array(nested, size) =>
        WrappedProper(nested, Suffixed(shape, Holds(size)));
        Associate(Layers(shape), [Holds(size)], LayersOf(nested));
      case Function(result, parameters) =>
        WrappedProper(result, Suffixed(shape, Takes(parameters)));
        Associate(Layers(shape), [Takes(parameters)], LayersOf(result));
      case _ =>
    }
  }

  ghost function RootText(t: CType): Tokens
    requires !t.Pointer? && !Wraps(t)
  {
    match t
    case Void => [VoidWord]
    case Integer(signed, bits) => [IntegerToken(signed, bits)]
    case Struct(fields) => [StructWord, LeftBrace] + FieldsText(fields) + [RightBrace]
  }

  ghost function FieldsText(fields: seq<Field>): Tokens {
    Strip(PrintFields(fields))
  }

  lemma StripSingle(t: Token)
    requires t != Space
    ensures Strip([t]) == [t]
  {
    assert [t][1..] == [];
  }

  lemma StripStarred(middle: Tokens)
    ensures Strip([Star] + Middle(middle)) == [Star] + Strip(middle)
  {
    StripMiddle(middle);
    StripSingle(Star);
    StripConcat([Star], Middle(middle));
  }

  lemma StripGrouped(middle: Tokens)
    ensures Strip([LeftParen, Star] + Middle(middle) + [RightParen]) == [LeftParen] + ([Star] + Strip(middle)) + [RightParen]
  {
    StripStarred(middle);
    StripSingle(LeftParen);
    StripSingle(RightParen);
    StripConcat([LeftParen], [Star] + Middle(middle));
    assert [LeftParen, Star] + Middle(middle) == [LeftParen] + ([Star] + Middle(middle));
    StripConcat([LeftParen] + ([Star] + Middle(middle)), [RightParen]);
  }

  lemma StripFunction(middle: Tokens, parameters: seq<Field>)
    ensures Strip(middle + [LeftParen] + PrintParameters(parameters) + [RightParen])
         == Strip(middle) + ([LeftParen] + ParametersText(parameters) + [RightParen])
  {
    var inner := [LeftParen] + PrintParameters(parameters);
    StripSingle(LeftParen);
    StripSingle(RightParen);
    StripConcat([LeftParen], PrintParameters(parameters));
    StripConcat(middle, inner);
    StripConcat(middle + inner, [RightParen]);
    Associate(middle, [LeftParen], PrintParameters(parameters));
    Associate(Strip(middle), [LeftParen] + ParametersText(parameters), [RightParen]);
  }

  lemma StripArray(middle: Tokens, size: nat)
    ensures Strip(middle + [LeftBracket, Count(size), RightBracket]) == Strip(middle) + [LeftBracket, Count(size), RightBracket]
  {
    var ts := [LeftBracket, Count(size), RightBracket];
    StripConcat(middle, ts);
    StripConcat([LeftBracket], [Count(size)]);
    StripConcat([LeftBracket] + [Count(size)], [RightBracket]);
    StripSingle(LeftBracket);
    StripSingle(Count(size));
    StripSingle(RightBracket);
    assert ts == [LeftBracket] + [Count(size)] + [RightBracket];
  }

  lemma StripStruct(fields: seq<Field>, middle: Tokens)
    ensures Strip(Print(Struct(fields), middle)) == RootText(Struct(fields)) + Strip(middle)
  {
    var open, gap: Tokens, close := [StructWord, Space, LeftBrace], if fields == [] then [] else [Space], [RightBrace, Space];
    StripBraces();
    assert Strip(gap) == [] by { assert [Space][1..] == []; }
    StripConcat(open, gap);
    assert Strip(open) + [] == Strip(open);
    StripConcat(open + gap, PrintFields(fields));
    StripConcat(open + gap + PrintFields(fields), close);
    StripConcat(open + gap + PrintFields(fields) + close, middle);
  }

  lemma StripBraces()
    ensures Strip([StructWord, Space, LeftBrace]) == [StructWord, LeftBrace] && Strip([RightBrace, Space]) == [RightBrace]
  {
    assert [StructWord, Space, LeftBrace][1..] == [Space, LeftBrace] && [Space, LeftBrace][1..] == [LeftBrace];
    assert [RightBrace, Space][1..] == [Space];
    StripSingle(LeftBrace);
    assert Strip([Space]) == [] by { assert [Space][1..] == []; }
  }

  /** The printed text is the root of the type, then the declarator. */
  lemma {:induction false} PrintText(t: CType, middle: Tokens, shape: Shape)
    requires Strip(middle) == Text(shape)
    ensures !Root(t).Pointer? && !Wraps(Root(t))
    ensures Strip(Print(t, middle)) == RootText(Root(t)) + Text(Wrapped(t, shape))
    decreases t
  {
    match t {
      case Void =>
        StripMiddle(middle);
        StripConcat([VoidWord], Middle(middle));
        StripSingle(VoidWord);
      case Integer(signed, bits) =>
        StripMiddle(middle);
        StripConcat([IntegerToken(signed, bits)], Middle(middle));
        StripSingle(IntegerToken(signed, bits));
      case Struct(fields) => StripStruct(fields, middle);
      case Pointer(nested) =>
        StripStarred(middle);
        StripGrouped(middle);
        if Wraps(nested) {
          PrintText(nested, [LeftParen, Star] + Middle(middle) + [RightParen], Grouped(Starred(shape)));
        } else {
          PrintText(nested, [Star] + Middle(middle), Starred(shape));
        }
      case Array(nested, size) =>
        StripArray(middle, size);
        PrintText(nested, middle + [LeftBracket, Count(size), RightBracket], Suffixed(shape, Holds(size)));
      case Function(result, parameters) =>
        StripFunction(middle, parameters);
        PrintText(result, middle + [LeftParen] + PrintParameters(parameters) + [RightParen], Suffixed(shape, Takes(parameters)));
    }
  }

  // ----- Round trip -----

  /** No integer has a sign and a single bit: the printer writes `bool` either way. */
  predicate Canonical(t: CType)
    decreases t
  {
    match t
    case Void => true
    case Integer(signed, bits) => bits == 1 ==> !signed
    case Pointer(nested) => Canonical(nested)
    case Array(nested, _) => Canonical(nested)
    case Struct(fields) => forall i :: 0 <= i < |fields| ==> CanonicalField(fields[i])
    case Function(result, parameters) => Canonical(result) && forall i :: 0 <= i < |parameters| ==> CanonicalField(parameters[i])
  }

  predicate CanonicalField(field: Field)
    decreases field
  {
    Canonical(field.kind)
  }

  /** A printed declaration starts with a word. */
  ghost predicate StartsDeclaration(ts: Tokens) {
    ts != [] && (ts[0].VoidWord? || ts[0].BoolWord? || ts[0].IntWord? || ts[0].StructWord?)
  }

  ghost function FieldText(field: Field): Tokens {
    Strip(PrintField(field))
  }

  /** Every declaration, with or without a name, is read back. */
  lemma {:induction false} ReadField(field: Field, rest: Tokens)
    requires CanonicalField(field) && Ends(rest)
    ensures ParseDeclaration(FieldText(field) + rest) == Parsed(field, rest) && StartsDeclaration(FieldText(field))
    decreases field
  {
    var t, shape := field.kind, Named(field.name);
    var d := Wrapped(t, shape);
    assert Strip(NameTokens(field.name)) == NameTokens(field.name) by {
      if field.name.Some? {
        StripSingle(Identifier(field.name.value));
      }
    }
    PrintText(t, NameTokens(field.name), shape);
    WrappedProper(t, shape);
    assert [] + LayersOf(t) == LayersOf(t);
    LayersRead(t);
    ReadShape(d, rest);
    ReadRoot(t, Text(d) + rest);
    Associate(RootText(Root(t)), Text(d), rest);
    BuildBack(t);
  }

  lemma {:induction false} LayersRead(t: CType)
    requires Canonical(t)
    ensures AllReadBack(LayersOf(t))
    decreases t
  {
    match t {
      case Pointer(nested) => LayersRead(nested);
      case Array(nested, _) => LayersRead(nested);
      case Function(result, parameters) =>
        LayersRead(result);
        ReadParameters(parameters);
      case _ =>
    }
  }

  lemma {:induction false} ReadRoot(t: CType, rest: Tokens)
    requires Canonical(t)
    ensures !Root(t).Pointer? && !Wraps(Root(t))
    ensures ParseBase(RootText(Root(t)) + rest) == Parsed(Root(t), rest) && StartsDeclaration(RootText(Root(t)))
    decreases t
  {
    match t {
      case Pointer(nested) => ReadRoot(nested, rest);
      case Array(nested, _) => ReadRoot(nested, rest);
      case Function(result, _) => ReadRoot(result, rest);
      case Struct(fields) =>
        ReadFields(fields, rest);
        var ts := RootText(t) + rest;
        assert ts[2..] == FieldsText(fields) + ([RightBrace] + rest);
      case Void => assert ([VoidWord] + rest)[1..] == rest;
      case Integer(signed, bits) => assert ([IntegerToken(signed, bits)] + rest)[1..] == rest;
    }
  }

  lemma {:induction false} ReadFields(fields: seq<Field>, rest: Tokens)
    requires forall i :: 0 <= i < |fields| ==> CanonicalField(fields[i])
    ensures ParseFields(FieldsText(fields) + ([RightBrace] + rest)) == Parsed(fields, rest)
    decreases fields
  {
    if fields == [] {
      assert FieldsText(fields) + ([RightBrace] + rest) == [RightBrace] + rest;
    } else {
      var f, more := fields[0], FieldsText(fields[1..]) + ([RightBrace] + rest);
      FieldsTextCons(fields);
      ReadFields(fields[1..], rest);
      ReadField(f, [Semicolon] + more);
      FieldsStep(f, FieldText(f), fields[1..], more, rest);
      AssociateFive(FieldText(f), [Semicolon], FieldsText(fields[1..]), [RightBrace] + rest);
      assert [f] + fields[1..] == fields;
    }
  }

  lemma FieldsStep(f: Field, text: Tokens, fields: seq<Field>, more: Tokens, rest: Tokens)
    requires StartsDeclaration(text) && ParseDeclaration(text + ([Semicolon] + more)) == Parsed(f, [Semicolon] + more)
    requires ParseFields(more) == Parsed(fields, rest)
    ensures ParseFields(text + ([Semicolon] + more)) == Parsed([f] + fields, rest)
  {
    assert ([Semicolon] + more)[1..] == more;
  }

  lemma AssociateFive<T>(a: seq<T>, b: seq<T>, c: seq<T>, d: seq<T>)
    ensures (a + (b + c)) + d == a + (b + (c + d))
  {
  }

  lemma MoreStep(f: Field, text: Tokens, parameters: seq<Field>, more: Tokens, rest: Tokens)
    requires StartsDeclaration(text) && ParseDeclaration(text + more) == Parsed(f, more)
    requires ParseMore(more) == Parsed(parameters, rest)
    ensures ParseMore([Comma] + (text + more)) == Parsed([f] + parameters, rest)
    ensures ParseParameters(text + more) == Parsed([f] + parameters, rest)
  {
    assert ([Comma] + (text + more))[1..] == text + more;
  }

  lemma StripSpaced(t: Token)
    requires t != Space
    ensures Strip([t, Space]) == [t]
  {
    assert [t, Space][1..] == [Space] && [Space][1..] == [];
    assert Strip([Space]) == [];
  }

  lemma FieldsTextCons(fields: seq<Field>)
    requires fields != []
    ensures FieldsText(fields) == FieldText(fields[0]) + ([Semicolon] + FieldsText(fields[1..]))
  {
    StripConcat(PrintField(fields[0]), [Semicolon, Space]);
    StripConcat(PrintField(fields[0]) + [Semicolon, Space], PrintFields(fields[1..]));
    StripSpaced(Semicolon);
    Associate(FieldText(fields[0]), [Semicolon], FieldsText(fields[1..]));
  }

  ghost function MoreText(parameters: seq<Field>): Tokens {
    Strip(PrintMore(parameters))
  }

  lemma {:induction false} ReadParameters(parameters: seq<Field>)
    requires forall i :: 0 <= i < |parameters| ==> CanonicalField(parameters[i])
    ensures ReadsBack(parameters)
    decreases parameters, 1
  {
    forall rest ensures ParseParameters(ParametersText(parameters) + ([RightParen] + rest)) == Parsed(parameters, rest) {
      if parameters == [] {
        assert ParametersText(parameters) + ([RightParen] + rest) == [RightParen] + rest;
      } else {
        var f, more := parameters[0], MoreText(parameters[1..]) + ([RightParen] + rest);
        StripConcat(PrintField(f), PrintMore(parameters[1..]));
        MoreEnds(parameters[1..], rest);
        ReadField(f, more);
        ReadMore(parameters[1..], rest);
        MoreStep(f, FieldText(f), parameters[1..], more, rest);
        Associate(FieldText(f), MoreText(parameters[1..]), [RightParen] + rest);
        assert [f] + parameters[1..] == parameters;
      }
    }
    if parameters != [] {
      StripConcat(PrintField(parameters[0]), PrintMore(parameters[1..]));
      ReadField(parameters[0], []);
    }
  }

  lemma {:induction false} ReadMore(parameters: seq<Field>, rest: Tokens)
    requires forall i :: 0 <= i < |parameters| ==> CanonicalField(parameters[i])
    ensures ParseMore(MoreText(parameters) + ([RightParen] + rest)) == Parsed(parameters, rest)
    decreases parameters, 0
  {
    if parameters == [] {
      assert MoreText(parameters) + ([RightParen] + rest) == [RightParen] + rest;
    } else {
      var f, more := parameters[0], MoreText(parameters[1..]) + ([RightParen] + rest);
      MoreTextCons(parameters);
      MoreEnds(parameters[1..], rest);
      ReadField(f, more);
      ReadMore(parameters[1..], rest);
      MoreStep(f, FieldText(f), parameters[1..], more, rest);
      AssociateFive([Comma], FieldText(f), MoreText(parameters[1..]), [RightParen] + rest);
      assert [f] + parameters[1..] == parameters;
    }
  }

  lemma MoreTextCons(parameters: seq<Field>)
    requires parameters != []
    ensures MoreText(parameters) == [Comma] + (FieldText(parameters[0]) + MoreText(parameters[1..]))
  {
    StripConcat([Comma, Space], PrintField(parameters[0]));
    StripConcat([Comma, Space] + PrintField(parameters[0]), PrintMore(parameters[1..]));
    StripSpaced(Comma);
    Associate([Comma], FieldText(parameters[0]), MoreText(parameters[1..]));
  }

  lemma MoreEnds(parameters: seq<Field>, rest: Tokens)
    ensures Ends(MoreText(parameters) + ([RightParen] + rest))
  {
    if parameters != [] {
      MoreTextCons(parameters);
    } else {
      assert MoreText(parameters) + ([RightParen] + rest) == [RightParen] + rest;
    }
  }

  /** CTypePrinter::declare */
  function Declare(t: CType, name: Option<nat>): Tokens {
    Print(t, NameTokens(name))
  }

  /** Parsing a printed declaration gives back the type and the name. */
  lemma RoundTrip(t: CType, name: Option<nat>)
    requires Canonical(t)
    ensures ParseDeclaration(Strip(Declare(t, name))) == Parsed(Field(t, name), [])
  {
    var field := Field(t, name);
    ReadField(field, []);
    assert FieldText(field) + [] == FieldText(field);
  }

  /** The type without signs on one-bit integers. */
  function Normal(t: CType): CType
    decreases t
  {
    match t
    case Void => Void
    case Integer(signed, bits) => Integer(signed && bits != 1, bits)
    case Pointer(nested) => Pointer(Normal(nested))
    case Array(nested, size) => Array(Normal(nested), size)
    case Struct(fields) => Struct(NormalFields(fields))
    case Function(result, parameters) => Function(Normal(result), NormalFields(parameters))
  }

  function NormalFields(fields: seq<Field>): (r: seq<Field>)
    ensures |r| == |fields|
    decreases fields
  {
    if fields == [] then [] else [NormalField(fields[0])] + NormalFields(fields[1..])
  }

  function NormalField(field: Field): Field
    decreases field
  {
    Field(Normal(field.kind), field.name)
  }

  lemma {:induction false} PrintNormal(t: CType, middle: Tokens)
    ensures Print(Normal(t), middle) == Print(t, middle)
    decreases t
  {
    match t {
      case Pointer(nested) =>
        PrintNormal(nested, if Wraps(nested) then [LeftParen, Star] + Middle(middle) + [RightParen] else [Star] + Middle(middle));
      case Array(nested, size) => PrintNormal(nested, middle + [LeftBracket, Count(size), RightBracket]);
      case Struct(fields) => PrintNormalFields(fields);
      case Function(result, parameters) =>
        PrintNormalParameters(parameters);
        PrintNormal(result, middle + [LeftParen] + PrintParameters(parameters) + [RightParen]);
      case _ =>
    }
  }

  lemma {:induction false} PrintNormalField(field: Field)
    ensures PrintField(NormalField(field)) == PrintField(field)
    decreases field
  {
    PrintNormal(field.kind, NameTokens(field.name));
  }

  lemma {:induction false} PrintNormalFields(fields: seq<Field>)
    ensures PrintFields(NormalFields(fields)) == PrintFields(fields)
    decreases fields
  {
    if fields != [] {
      PrintNormalField(fields[0]);
      PrintNormalFields(fields[1..]);
    }
  }

  lemma {:induction false} PrintNormalParameters(parameters: seq<Field>)
    ensures PrintParameters(NormalFields(parameters)) == PrintParameters(parameters)
    decreases parameters
  {
    if parameters != [] {
      PrintNormalField(parameters[0]);
      PrintNormalMore(parameters[1..]);
    }
  }

  lemma {:induction false} PrintNormalMore(parameters: seq<Field>)
    ensures PrintMore(NormalFields(parameters)) == PrintMore(parameters)
    decreases parameters
  {
    if parameters != [] {
      PrintNormalField(parameters[0]);
      PrintNormalMore(parameters[1..]);
    }
  }

  lemma {:induction false} NormalExact(t: CType)
    ensures Canonical(Normal(t)) && (Normal(t) == t <==> Canonical(t))
    decreases t
  {
    match t {
      case Pointer(nested) => NormalExact(nested);
      case Array(nested, _) => NormalExact(nested);
      case Struct(fields) => NormalFieldsExact(fields);
      case Function(result, parameters) =>
        NormalExact(result);
        NormalFieldsExact(parameters);
      case _ =>
    }
  }

  lemma {:induction false} NormalFieldExact(field: Field)
    ensures CanonicalField(NormalField(field)) && (NormalField(field) == field <==> CanonicalField(field))
    decreases field
  {
    NormalExact(field.kind);
  }

  lemma {:induction false} NormalFieldsExact(fields: seq<Field>)
    ensures forall i :: 0 <= i < |fields| ==> CanonicalField(NormalFields(fields)[i])
    ensures NormalFields(fields) == fields <==> forall i :: 0 <= i < |fields| ==> CanonicalField(fields[i])
    decreases fields
  {
    if fields != [] {
      NormalFieldExact(fields[0]);
      NormalFieldsExact(fields[1..]);
      assert NormalFields(fields)[1..] == NormalFields(fields[1..]);
      assert forall i :: 0 < i < |fields| ==> fields[i] == fields[1..][i - 1];
    }
  }

  /** Exactly the types without signed one-bit integers are read back. */
  lemma RoundTripExact(t: CType, name: Option<nat>)
    ensures ParseDeclaration(Strip(Declare(t, name))) == Parsed(Field(t, name), []) <==> Canonical(t)
  {
    NormalExact(t);
    PrintNormal(t, NameTokens(name));
    RoundTrip(Normal(t), name);
  }

  /** Declarations are printed alike exactly if names and types are the same but for the sign of one-bit integers. */
  lemma PrintInjective(t: CType, name: Option<nat>, u: CType, other: Option<nat>)
    ensures Declare(t, name) == Declare(u, other) <==> Normal(t) == Normal(u) && name == other
  {
    NormalExact(t);
    NormalExact(u);
    PrintNormal(t, NameTokens(name));
    PrintNormal(u, NameTokens(other));
    RoundTrip(Normal(t), name);
    RoundTrip(Normal(u), other);
  }

  /** Without its parentheses a pointer to an array would read as an array of pointers. */
  lemma ParenthesesNeeded(element: CType, size: nat, middle: Tokens)
    requires !Wraps(element)
    ensures Print(Array(element, size), [Star] + Middle(middle)) == Print(Array(Pointer(element), size), middle)
  {
    var brackets := [LeftBracket, Count(size), RightBracket];
    if middle == [] {
      assert middle + brackets == brackets && [Star] + Middle(middle) + brackets == [Star] + Middle(brackets);
    } else {
      assert (middle + brackets)[0] == middle[0];
      assert [Star] + Middle(middle) + brackets == [Star] + Middle(middle + brackets);
    }
  }

  // ----- Spaces -----

  /** No two words touch. */
  ghost predicate Spaced(ts: Tokens) {
    forall i :: 0 <= i < |ts| - 1 ==> !(IsWord(ts[i]) && IsWord(ts[i + 1]))
  }

  lemma SpacedConcat(a: Tokens, b: Tokens)
    requires Spaced(a) && Spaced(b)
    requires a == [] || b == [] || !IsWord(a[|a| - 1]) || !IsWord(b[0])
    ensures Spaced(a + b)
  {
  }

  /** Text that starts with a word and what follows it. */
  lemma SpacedWord(word: Token, middle: Tokens)
    requires Spaced(middle)
    ensures Spaced([word] + Middle(middle))
  {
    if middle != [] && IsWord(middle[0]) {
      SpacedConcat([Space], middle);
    }
    SpacedConcat([word], Middle(middle));
  }

  lemma SpacedBetween(open: Token, inner: Tokens, close: Token)
    requires !IsWord(open) && !IsWord(close) && Spaced(inner)
    ensures Spaced([open] + inner + [close])
  {
    SpacedConcat([open], inner);
    SpacedConcat([open] + inner, [close]);
  }

  /** The printer leaves a space between any two words, so that no token is lost by stripping. */
  lemma {:induction false} PrintSpaced(t: CType, middle: Tokens)
    requires Spaced(middle)
    ensures Spaced(Print(t, middle))
    decreases t
  {
    match t {
      case Void => SpacedWord(VoidWord, middle);
      case Integer(signed, bits) => SpacedWord(IntegerToken(signed, bits), middle);
      case Pointer(nested) =>
        SpacedWord(Star, middle);
        SpacedBetween(LeftParen, [Star] + Middle(middle), RightParen);
        assert [LeftParen] + ([Star] + Middle(middle)) + [RightParen] == [LeftParen, Star] + Middle(middle) + [RightParen];
        PrintSpaced(nested, if Wraps(nested) then [LeftParen, Star] + Middle(middle) + [RightParen] else [Star] + Middle(middle));
      case Array(nested, size) =>
        SpacedConcat(middle, [LeftBracket, Count(size), RightBracket]);
        PrintSpaced(nested, middle + [LeftBracket, Count(size), RightBracket]);
      case Struct(fields) =>
        FieldsSpaced(fields);
        var gap: Tokens := if fields == [] then [] else [Space];
        SpacedConcat([StructWord, Space, LeftBrace], gap);
        SpacedConcat([StructWord, Space, LeftBrace] + gap, PrintFields(fields));
        SpacedConcat([StructWord, Space, LeftBrace] + gap + PrintFields(fields), [RightBrace, Space]);
        SpacedConcat([StructWord, Space, LeftBrace] + gap + PrintFields(fields) + [RightBrace, Space], middle);
      case Function(result, parameters) =>
        ParametersSpaced(parameters);
        SpacedConcat(middle, [LeftParen]);
        SpacedConcat(middle + [LeftParen], PrintParameters(parameters));
        SpacedConcat(middle + [LeftParen] + PrintParameters(parameters), [RightParen]);
        PrintSpaced(result, middle + [LeftParen] + PrintParameters(parameters) + [RightParen]);
    }
  }

  lemma {:induction false} FieldSpaced(field: Field)
    ensures Spaced(PrintField(field))
    decreases field
  {
    PrintSpaced(field.kind, NameTokens(field.name));
  }

  lemma {:induction false} FieldsSpaced(fields: seq<Field>)
    ensures Spaced(PrintFields(fields))
    decreases fields
  {
    if fields != [] {
      FieldSpaced(fields[0]);
      FieldsSpaced(fields[1..]);
      SpacedConcat(PrintField(fields[0]), [Semicolon, Space]);
      SpacedConcat(PrintField(fields[0]) + [Semicolon, Space], PrintFields(fields[1..]));
    }
  }

  lemma {:induction false} MoreSpaced(parameters: seq<Field>)
    ensures Spaced(PrintMore(parameters)) && (PrintMore(parameters) == [] || PrintMore(parameters)[0] == Comma)
    decreases parameters
  {
    if parameters != [] {
      FieldSpaced(parameters[0]);
      MoreSpaced(parameters[1..]);
      SpacedConcat([Comma, Space], PrintField(parameters[0]));
      SpacedConcat([Comma, Space] + PrintField(parameters[0]), PrintMore(parameters[1..]));
    }
  }

  lemma {:induction false} ParametersSpaced(parameters: seq<Field>)
    ensures Spaced(PrintParameters(parameters))
    decreases parameters
  {
    if parameters != [] {
      FieldSpaced(parameters[0]);
      MoreSpaced(parameters[1..]);
      SpacedConcat(PrintField(parameters[0]), PrintMore(parameters[1..]));
    }
  }

  // ----- The printer as it runs -----

  /** CTypePrinter::print, which appends to a stream. */
  method PrintTo(os: Tokens, t: CType, middle: Tokens) returns (os': Tokens)
    ensures os' == os + Print(t, middle)
    decreases t
  {
    match t {
      case Void => os' := os + ([VoidWord] + Middle(middle));
      case Integer(signed, bits) => os' := os + ([IntegerToken(signed, bits)] + Middle(middle));
      case Pointer(nested) =>
        var wrapWithParentheses := Wraps(nested);
        var midOs: Tokens := if wrapWithParentheses then [LeftParen] else [];
        midOs := midOs + [Star] + Middle(middle);
        if wrapWithParentheses {
          midOs := midOs + [RightParen];
        }
        assert [] + [Star] + Middle(middle) == [Star] + Middle(middle);
        assert [LeftParen] + [Star] == [LeftParen, Star];
        os' := PrintTo(os, nested, midOs);
      case Array(nested, size) => os' := PrintTo(os, nested, middle + [LeftBracket, Count(size), RightBracket]);
      case Struct(fields) => os' := PrintStruct(os, fields, middle);
      case Function(result, parameters) =>
        var rs := PrintFunction(middle + [LeftParen], parameters);
        os' := PrintTo(os, result, rs + [RightParen]);
    }
  }

  method PrintStruct(os: Tokens, fields: seq<Field>, middle: Tokens) returns (os': Tokens)
    ensures os' == os + Print(Struct(fields), middle)
    decreases fields, 0
  {
    os' := [StructWord, Space, LeftBrace] + if fields == [] then [] else [Space];
    ghost var start := os';
    for i := 0 to |fields|
      invariant os' + PrintFields(fields[i..]) == start + PrintFields(fields)
    {
      assert fields[i..][0] == fields[i] && fields[i..][1..] == fields[i + 1..];
      ghost var before := os';
      os' := PrintFieldTo(os', fields[i]);
      os' := os' + [Semicolon, Space];
      AppendStep(before, PrintField(fields[i]), [Semicolon, Space], PrintFields(fields[i + 1..]));
    }
    assert os' + [] == os';
    os' := os + (os' + [RightBrace, Space] + middle);
  }

  lemma AppendStep<T>(before: seq<T>, a: seq<T>, b: seq<T>, rest: seq<T>)
    ensures ((before + a) + b) + rest == before + (a + b + rest)
  {
  }

  method PrintFieldTo(os: Tokens, field: Field) returns (os': Tokens)
    ensures os' == os + PrintField(field)
    decreases field
  {
    os' := PrintTo(os, field.kind, NameTokens(field.name));
  }

  method PrintFunction(rs: Tokens, parameters: seq<Field>) returns (rs': Tokens)
    ensures rs' == rs + PrintParameters(parameters)
    decreases parameters, 0
  {
    rs' := rs;
    if parameters != [] {
      rs' := PrintFieldTo(rs, parameters[0]);
      Associate(rs, PrintField(parameters[0]), PrintMore(parameters[1..]));
      for i := 1 to |parameters|
        invariant rs' + PrintMore(parameters[i..]) == rs + PrintParameters(parameters)
      {
        assert parameters[i..][0] == parameters[i] && parameters[i..][1..] == parameters[i + 1..];
        ghost var before := rs';
        rs' := rs' + [Comma, Space];
        rs' := PrintFieldTo(rs', parameters[i]);
        AppendStep(before, [Comma, Space], PrintField(parameters[i]), PrintMore(parameters[i + 1..]));
      }
      assert parameters[|parameters|..] == [] && rs' + [] == rs';
    }
  }
}
