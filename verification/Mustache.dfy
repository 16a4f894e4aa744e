/** Templates after scanning: runs of text are joined, sections are nested, and the tree is
    rendered. Joining loses nothing, and nesting is undone by flattening. */
module Mustache {
  import opened Wrappers

  /** `{{#name}}` and `{{^name}}` open a section, `{{/name}}` closes it; `Other` stands for
      comments, delimiters and partials, which render as nothing here. */
  datatype Token =
    | Text(text: string, start: nat, end: nat)
    | Open(name: string, inverted: bool, start: nat, end: nat)
    | Close(name: string, start: nat, end: nat)
    | Variable(name: string, escaped: bool, start: nat, end: nat)
    | Other(start: nat, end: nat)

  datatype Node =
    | Leaf(token: Token)
    | Section(token: Token, children: Forest, closing: nat)

  /** A list of nodes, built by adding at its end. */
  datatype Forest = Nil | Push(init: Forest, last: Node)

  // -------------------------------------------------------------------------- joining

  /** The tokens that are there; stripped white space has left holes. */
  function Present(tokens: seq<Option<Token>>): seq<Token> {
    if tokens == [] then []
    else
      var init := Present(tokens[..|tokens| - 1]);
      match tokens[|tokens| - 1]
      case None => init
      case Some(t) => init + [t]
  }

  function JoinedText(a: Token, b: Token): Token
    requires a.Text? && b.Text?
  {
    Text(a.text + b.text, a.start, b.end)
  }

  /** One more token after tokens that are joined already. */
  function Joined(out: seq<Token>, t: Token): seq<Token> {
    if t.Text? && out != [] && out[|out| - 1].Text? then out[..|out| - 1] + [JoinedText(out[|out| - 1], t)]
    else out + [t]
  }

  function Squashed(tokens: seq<Token>): seq<Token> {
    if tokens == [] then [] else Joined(Squashed(tokens[..|tokens| - 1]), tokens[|tokens| - 1])
  }

  lemma NothingPresent()
    ensures Squashed(Present([])) == []
  {
  }

  lemma OneMore(tokens: seq<Option<Token>>, i: nat)
    requires i < |tokens|
    ensures Squashed(Present(tokens[..i + 1]))
         == match tokens[i] { case None => Squashed(Present(tokens[..i])) case Some(t) => Joined(Squashed(Present(tokens[..i])), t) }
  {
    var init := Present(tokens[..i]);
    assert tokens[..i + 1][..i] == tokens[..i];
    if tokens[i].Some? {
      assert (init + [tokens[i].value])[..|init|] == init;
    }
  }

  method SquashTokens(tokens: seq<Option<Token>>) returns (squashed: seq<Token>)
    ensures squashed == Squashed(Present(tokens))
  {
    hide Present, Squashed;
    squashed := [];
    var lastToken: Option<Token> := None;
    NothingPresent();
    for i := 0 to |tokens|
      invariant squashed == Squashed(Present(tokens[..i]))
      invariant lastToken == if squashed == [] then None else Some(squashed[|squashed| - 1])
    {
      OneMore(tokens, i);
      if tokens[i].Some? {
        var token := tokens[i].value;
        if token.Text? && lastToken.Some? && lastToken.value.Text? {
          var joined := Text(lastToken.value.text + token.text, lastToken.value.start, token.end);
          squashed := squashed[|squashed| - 1 := joined];
          lastToken := Some(joined);
        } else {
          squashed := squashed + [token];
          lastToken := Some(token);
        }
      }
    }
    assert tokens[..|tokens|] == tokens;
  }

  /** Text never stands next to text afterwards. */
  lemma {:induction false} SquashedApart(tokens: seq<Token>)
    ensures forall i | 0 <= i < |Squashed(tokens)| - 1 :: !(Squashed(tokens)[i].Text? && Squashed(tokens)[i + 1].Text?)
  {
    if tokens != [] {
      SquashedApart(tokens[..|tokens| - 1]);
    }
  }

  // -------------------------------------------------------------------------- nesting

  /** A section that is open, and the nodes before it. */
  datatype Frame = Frame(token: Token, before: Forest)

  datatype State = State(sections: seq<Frame>, collector: Forest)

  const EMPTY := State([], Nil)

  /** `None` stands for a closing tag with no section to close, which throws. */
  function Step(s: State, t: Token): Option<State> {
    match t
    case Open(_, _, _, _) => Some(State(s.sections + [Frame(t, s.collector)], Nil))
    case Close(_, start, _) =>
      if s.sections == [] then None
      else
        var f := s.sections[|s.sections| - 1];
        Some(State(s.sections[..|s.sections| - 1], Push(f.before, Section(f.token, s.collector, start))))
    case _ => Some(State(s.sections, Push(s.collector, Leaf(t))))
  }

  function Steps(s: State, tokens: seq<Token>): Option<State>
    decreases |tokens|
  {
    if tokens == [] then Some(s)
    else match Step(s, tokens[0])
      case None => None
      case Some(next) => Steps(next, tokens[1..])
  }

  /** The sections of a template match: every closing tag names the section it closes, and
      none is left open. */
  predicate Matching(names: seq<string>, tokens: seq<Token>)
    decreases |tokens|
  {
    if tokens == [] then names == []
    else match tokens[0]
      case Open(name, _, _, _) => Matching(names + [name], tokens[1..])
      case Close(name, _, _) => names != [] && names[|names| - 1] == name && Matching(names[..|names| - 1], tokens[1..])
      case _ => Matching(names, tokens[1..])
  }

  predicate Balanced(tokens: seq<Token>) {
    Matching([], tokens)
  }

  datatype SectionError = Unopened(name: string, at: nat) | Unclosed(name: string)

  /** The section checks of the parser. */
  method CheckSections(tokens: seq<Token>) returns (error: Option<SectionError>)
    ensures error.None? <==> Balanced(tokens)
  {
    var sections: seq<Token> := [];
    ghost var names: seq<string> := [];
    for i := 0 to |tokens|
      invariant |sections| == |names| && forall j | 0 <= j < |names| :: sections[j].Open? && sections[j].name == names[j]
      invariant Matching(names, tokens[i..]) == Balanced(tokens)
    {
      assert tokens[i..][0] == tokens[i] && tokens[i..][1..] == tokens[i + 1..];
      var token := tokens[i];
      if token.Open? {
        sections := sections + [token];
        names := names + [token.name];
      } else if token.Close? {
        if sections == [] {
          return Some(Unopened(token.name, token.start));
        }
        var openSection := sections[|sections| - 1];
        sections := sections[..|sections| - 1];
        if openSection.name != token.name {
          return Some(Unclosed(openSection.name));
        }
        names := names[..|names| - 1];
      }
    }
    if sections != [] {
      return Some(Unclosed(sections[|sections| - 1].name));
    }
    return None;
  }

  ghost predicate FramesNamed(s: State, names: seq<string>) {
    |s.sections| == |names|
    && forall j | 0 <= j < |names| :: s.sections[j].token.Open? && s.sections[j].token.name == names[j]
  }

  /** Balanced tokens nest without an error and leave no section open. */
  lemma {:induction false} BalancedNests(s: State, names: seq<string>, tokens: seq<Token>)
    requires FramesNamed(s, names) && Matching(names, tokens)
    ensures Steps(s, tokens).Some? && Steps(s, tokens).value.sections == []
    decreases |tokens|
  {
    if tokens != [] {
      var next := Step(s, tokens[0]).value;
      match tokens[0] {
        case Open(name, _, _, _) => BalancedNests(next, names + [name], tokens[1..]);
        case Close(name, _, _) => BalancedNests(next, names[..|names| - 1], tokens[1..]);
        case _ => BalancedNests(next, names, tokens[1..]);
      }
    }
  }

  function Nested(tokens: seq<Token>): Forest
    requires Balanced(tokens)
  {
    BalancedNests(EMPTY, [], tokens);
    Steps(EMPTY, tokens).value.collector
  }

  method NestTokens(tokens: seq<Token>) returns (nested: Forest)
    requires Balanced(tokens)
    ensures nested == Nested(tokens)
  {
    var sections: seq<Frame> := [];
    var collector := Nil;
    BalancedNests(EMPTY, [], tokens);
    for i := 0 to |tokens|
      invariant Steps(State(sections, collector), tokens[i..]) == Steps(EMPTY, tokens)
    {
      assert tokens[i..][0] == tokens[i] && tokens[i..][1..] == tokens[i + 1..];
      var token := tokens[i];
      match token {
        case Open(_, _, _, _) =>
          sections := sections + [Frame(token, collector)];
          collector := Nil;
        case Close(_, start, _) =>
          var section := sections[|sections| - 1];
          sections := sections[..|sections| - 1];
          collector := Push(section.before, Section(section.token, collector, start));
        case _ => collector := Push(collector, Leaf(token));
      }
    }
    nested := collector;
  }

  // ------------------------------------------------------------------------ flattening

  /** A closing tag as it can be told from the tree: its end is not recorded. */
  function Shape(t: Token): Token {
    match t
    case Close(name, start, _) => Close(name, start, 0)
    case _ => t
  }

  function Shapes(tokens: seq<Token>): seq<Token> {
    if tokens == [] then [] else Shapes(tokens[..|tokens| - 1]) + [Shape(tokens[|tokens| - 1])]
  }

  function NameOf(t: Token): string {
    if t.Open? then t.name else ""
  }

  function Flat(f: Forest): seq<Token> {
    match f
    case Nil => []
    case Push(init, node) => Flat(init) + FlatNode(node)
  }

  function FlatNode(n: Node): seq<Token> {
    match n
    case Leaf(t) => [t]
    case Section(t, children, closing) => [t] + Flat(children) + [Close(NameOf(t), closing, 0)]
  }

  function FlatFrames(frames: seq<Frame>): seq<Token> {
    if frames == [] then []
    else FlatFrames(frames[..|frames| - 1]) + Flat(frames[|frames| - 1].before) + [frames[|frames| - 1].token]
  }

  function FlatState(s: State): seq<Token> {
    FlatFrames(s.sections) + Flat(s.collector)
  }

  lemma ReAssociate(a: seq<Token>, b: seq<Token>, c: seq<Token>, d: seq<Token>, e: seq<Token>)
    ensures a + (b + (c + d + e)) == a + b + c + d + e
  {
  }

  /** A step adds its token at the end of what the state holds. */
  lemma StepFlat(s: State, names: seq<string>, t: Token)
    requires FramesNamed(s, names) && Step(s, t).Some?
    requires t.Close? ==> names != [] && names[|names| - 1] == t.name
    ensures FlatState(Step(s, t).value) == FlatState(s) + [Shape(t)]
  {
    match t {
      case Open(_, _, _, _) =>
        assert (s.sections + [Frame(t, s.collector)])[..|s.sections|] == s.sections;
      case Close(_, _, _) =>
        var f := s.sections[|s.sections| - 1];
        assert s.sections[|names| - 1].token.name == names[|names| - 1];
        assert FlatNode(Section(f.token, s.collector, t.start)) == [f.token] + Flat(s.collector) + [Shape(t)];
        ReAssociate(FlatFrames(s.sections[..|s.sections| - 1]), Flat(f.before), [f.token], Flat(s.collector), [Shape(t)]);
      case _ =>
        assert FlatNode(Leaf(t)) == [t] == [Shape(t)];
        assert FlatState(s) + [t] == FlatFrames(s.sections) + (Flat(s.collector) + [t]);
    }
  }

  lemma {:induction false} StepsFlat(s: State, names: seq<string>, tokens: seq<Token>)
    requires FramesNamed(s, names) && Matching(names, tokens)
    ensures Steps(s, tokens).Some? && Steps(s, tokens).value.sections == []
    ensures Flat(Steps(s, tokens).value.collector) == FlatState(s) + Shapes(tokens)
    decreases |tokens|
  {
    BalancedNests(s, names, tokens);
    if tokens == [] {
      assert FlatState(s) == [] + Flat(s.collector);
    } else {
      hide Flat, FlatState, Shapes, Shape;
      var t, rest := tokens[0], tokens[1..];
      StepFlat(s, names, t);
      var next := Step(s, t).value;
      if t.Open? {
        StepsFlat(next, names + [t.name], rest);
      } else if t.Close? {
        StepsFlat(next, names[..|names| - 1], rest);
      } else {
        StepsFlat(next, names, rest);
      }
      ShapesFront(tokens);
      Associates(FlatState(s), [Shape(t)], Shapes(rest));
    }
  }

  lemma Associates(a: seq<Token>, b: seq<Token>, c: seq<Token>)
    ensures a + b + c == a + (b + c)
  {
  }

  lemma {:induction false} ShapesFront(tokens: seq<Token>)
    requires tokens != []
    ensures Shapes(tokens) == [Shape(tokens[0])] + Shapes(tokens[1..])
  {
    if |tokens| > 1 {
      ShapesFront(tokens[..|tokens| - 1]);
      assert tokens[..|tokens| - 1][1..] == tokens[1..][..|tokens| - 2];
    } else {
      assert tokens[..0] == [] && tokens[1..] == [];
    }
  }

  /** Flattening the nested tokens, with the closing tags put back where the sections record
      them, gives the tokens again. */
  lemma FlatNested(tokens: seq<Token>)
    requires Balanced(tokens)
    ensures Flat(Nested(tokens)) == Shapes(tokens)
  {
    StepsFlat(EMPTY, [], tokens);
    assert FlatState(EMPTY) == [];
  }

  /** A tree of the parser: sections at its inner nodes, other tokens at its leaves. */
  predicate IsTree(f: Forest) {
    f.Nil? || (IsTree(f.init) && IsNode(f.last))
  }

  predicate IsNode(n: Node) {
    match n
    case Leaf(t) => !t.Open? && !t.Close?
    case Section(t, children, _) => t.Open? && IsTree(children)
  }

  function Appended(f: Forest, g: Forest): Forest {
    match g
    case Nil => f
    case Push(init, node) => Push(Appended(f, init), node)
  }

  lemma {:induction false} StepsSplit(s: State, x: seq<Token>, y: seq<Token>)
    ensures Steps(s, x + y) == match Steps(s, x) { case None => None case Some(next) => Steps(next, y) }
    decreases |x|
  {
    if x == [] {
      assert x + y == y;
    } else {
      assert (x + y)[1..] == x[1..] + y;
      if Step(s, x[0]).Some? {
        StepsSplit(Step(s, x[0]).value, x[1..], y);
      }
    }
  }

  lemma {:induction false} FlatSteps(s: State, f: Forest)
    requires IsTree(f)
    ensures Steps(s, Flat(f)) == Some(State(s.sections, Appended(s.collector, f)))
    decreases f
  {
    if f.Push? {
      FlatSteps(s, f.init);
      StepsSplit(s, Flat(f.init), FlatNode(f.last));
      FlatNodeSteps(State(s.sections, Appended(s.collector, f.init)), f.last);
    }
  }

  lemma {:induction false} FlatNodeSteps(s: State, n: Node)
    requires IsNode(n)
    ensures Steps(s, FlatNode(n)) == Some(State(s.sections, Push(s.collector, n)))
    decreases n
  {
    match n {
      case Leaf(t) =>
        assert [t][1..] == [];
      case Section(t, children, closing) =>
        var inner := State(s.sections + [Frame(t, s.collector)], Nil);
        var close := Close(NameOf(t), closing, 0);
        FlatSteps(inner, children);
        AppendedToNil(children);
        StepsSplit(inner, Flat(children), [close]);
        assert [close][1..] == [];
        assert FlatNode(n)[1..] == Flat(children) + [close];
        assert inner.sections[..|s.sections|] == s.sections;
    }
  }

  lemma {:induction false} AppendedToNil(f: Forest)
    ensures Appended(Nil, f) == f
  {
    if f.Push? {
      AppendedToNil(f.init);
    }
  }

  /** Nesting the tokens of a tree gives the tree. */
  lemma NestedFlat(f: Forest)
    requires IsTree(f)
    ensures Steps(EMPTY, Flat(f)) == Some(State([], f))
  {
    FlatSteps(EMPTY, f);
    AppendedToNil(f);
  }

  // ------------------------------------------------------------------------- rendering

  /** What a view holds; functions are left out. `Absent` stands for null and undefined. */
  datatype Value = Absent | Bool(b: bool) | Num(n: int) | Str(s: string) | Obj(id: nat) | List(elements: seq<Value>)

  /** The views from the innermost to the outermost. */
  type Context = seq<Value>

  /** How names are looked up and values are written. */
  datatype Views = Views(lookup: (Context, string) -> Value, text: Value -> string, escape: string -> string)

  predicate Falsy(v: Value) {
    v.Absent? || v == Bool(false) || v == Num(0) || v == Str("")
  }

  function Render(vs: Views, f: Forest, ctx: Context): string
    decreases f, 0
  {
    match f
    case Nil => ""
    case Push(init, node) => Render(vs, init, ctx) + RenderNode(vs, node, ctx)
  }

  function RenderNode(vs: Views, n: Node, ctx: Context): string
    decreases n, 1
  {
    match n
    case Leaf(t) => RenderLeaf(vs, t, ctx)
    case Section(t, children, _) =>
      if !t.Open? then ""
      else
        var v := vs.lookup(ctx, t.name);
        if t.inverted then (if Falsy(v) || v == List([]) then Render(vs, children, ctx) else "")
        else if Falsy(v) then ""
        else
          match v
          case List(elements) => RenderEach(vs, children, elements, ctx)
          case Bool(_) => Render(vs, children, ctx)
          case _ => Render(vs, children, [v] + ctx)
  }

  function RenderEach(vs: Views, children: Forest, elements: seq<Value>, ctx: Context): string
    decreases children, 1, |elements|
  {
    if elements == [] then ""
    else RenderEach(vs, children, elements[..|elements| - 1], ctx) + Render(vs, children, [elements[|elements| - 1]] + ctx)
  }

  function RenderLeaf(vs: Views, t: Token, ctx: Context): string {
    match t
    case Text(text, _, _) => text
    case Variable(name, escaped, _, _) =>
      var v := vs.lookup(ctx, name);
      if v.Absent? then "" else if escaped then vs.escape(vs.text(v)) else vs.text(v)
    case _ => ""
  }

  /** A plain and an inverted section of one name. */
  function Plain(name: string, f: Forest): Node {
    Section(Open(name, false, 0, 0), f, 0)
  }

  function Inverted(name: string, f: Forest): Node {
    Section(Open(name, true, 0, 0), f, 0)
  }

  /** The tree that is nothing but a text. */
  function TextTree(text: string): Forest {
    Push(Nil, Leaf(Text(text, 0, 0)))
  }

  /** In one context the inverted section of a name renders its children exactly when the plain
      one renders nothing for any children, and nothing otherwise. */
  lemma InvertedWhenNothing(vs: Views, name: string, ctx: Context)
    ensures (forall f :: RenderNode(vs, Plain(name, f), ctx) == "")
       <==> forall f :: RenderNode(vs, Inverted(name, f), ctx) == Render(vs, f, ctx)
    ensures (exists f :: RenderNode(vs, Plain(name, f), ctx) != "")
       <==> forall f :: RenderNode(vs, Inverted(name, f), ctx) == ""
  {
    TextRenders(vs, "x", ctx);
    if forall f :: RenderNode(vs, Plain(name, f), ctx) == "" {
      TextSection(vs, name, "x", ctx);
      assert RenderNode(vs, Plain(name, TextTree("x")), ctx) == "";
    }
    if forall f :: RenderNode(vs, Inverted(name, f), ctx) == Render(vs, f, ctx) {
      assert RenderNode(vs, Inverted(name, TextTree("x")), ctx) == "x";
    }
    if forall f :: RenderNode(vs, Inverted(name, f), ctx) == "" {
      assert RenderNode(vs, Inverted(name, TextTree("x")), ctx) == "";
      TextSection(vs, name, "x", ctx);
    }
  }

  lemma TextRenders(vs: Views, text: string, ctx: Context)
    ensures Render(vs, TextTree(text), ctx) == text
  {
    assert Render(vs, Nil, ctx) == "";
  }

  /** A variable tag renders its value escaped; the unescaped form renders it as it is; neither
      renders anything for a name that is not there. */
  lemma VariableRenders(vs: Views, name: string, ctx: Context)
    ensures var plain := RenderNode(vs, Leaf(Variable(name, false, 0, 0)), ctx);
            var escaped := RenderNode(vs, Leaf(Variable(name, true, 0, 0)), ctx);
            if vs.lookup(ctx, name) == Absent then plain == "" && escaped == ""
            else plain == vs.text(vs.lookup(ctx, name)) && escaped == vs.escape(plain)
  {
  }

  function Copies(text: string, n: nat): string {
    if n == 0 then "" else Copies(text, n - 1) + text
  }

  /** How often a plain section renders its children: once for every element of a list, once
      for anything else that is not falsy. */
  function Times(v: Value): nat {
    match v
    case Absent => 0
    case Bool(b) => if b then 1 else 0
    case Num(n) => if n != 0 then 1 else 0
    case Str(s) => if s != "" then 1 else 0
    case Obj(_) => 1
    case List(elements) => |elements|
  }

  lemma TextSection(vs: Views, name: string, text: string, ctx: Context)
    ensures RenderNode(vs, Plain(name, TextTree(text)), ctx) == Copies(text, Times(vs.lookup(ctx, name)))
    ensures text != "" && Times(vs.lookup(ctx, name)) > 0 ==> RenderNode(vs, Plain(name, TextTree(text)), ctx) != ""
  {
    var v := vs.lookup(ctx, name);
    TextRenders(vs, text, ctx);
    TextRenders(vs, text, [v] + ctx);
    if v.List? {
      TextEach(vs, text, v.elements, ctx);
    } else {
      assert Copies(text, 1) == "" + text;
    }
  }

  lemma {:induction false} TextEach(vs: Views, text: string, elements: seq<Value>, ctx: Context)
    ensures RenderEach(vs, TextTree(text), elements, ctx) == Copies(text, |elements|)
    decreases |elements|
  {
    if elements != [] {
      TextEach(vs, text, elements[..|elements| - 1], ctx);
      TextRenders(vs, text, [elements[|elements| - 1]] + ctx);
    }
  }

  /** A list renders part by part, each element in front of the context. */
  lemma {:induction false} ListRenders(vs: Views, f: Forest, xs: seq<Value>, x: Value, ys: seq<Value>, ctx: Context)
    ensures RenderEach(vs, f, xs + [x] + ys, ctx)
         == RenderEach(vs, f, xs, ctx) + Render(vs, f, [x] + ctx) + RenderEach(vs, f, ys, ctx)
    decreases |ys|
  {
    var all := xs + [x] + ys;
    if ys == [] {
      assert all[..|all| - 1] == xs;
    } else {
      ListRenders(vs, f, xs, x, ys[..|ys| - 1], ctx);
      assert all[..|all| - 1] == xs + [x] + ys[..|ys| - 1];
    }
  }

  /** Two trees that render alike, whatever the context. */
  ghost predicate Alike(vs: Views, f: Forest, g: Forest) {
    forall ctx :: Render(vs, f, ctx) == Render(vs, g, ctx)
  }

  lemma {:induction false} EachAlike(vs: Views, f: Forest, g: Forest, elements: seq<Value>, ctx: Context)
    requires Alike(vs, f, g)
    ensures RenderEach(vs, f, elements, ctx) == RenderEach(vs, g, elements, ctx)
    decreases |elements|
  {
    if elements != [] {
      EachAlike(vs, f, g, elements[..|elements| - 1], ctx);
    }
  }

  /** Sections of trees that render alike render alike. */
  lemma SectionAlike(vs: Views, t: Token, f: Forest, g: Forest, start: nat, ctx: Context)
    requires Alike(vs, f, g)
    ensures RenderNode(vs, Section(t, f, start), ctx) == RenderNode(vs, Section(t, g, start), ctx)
  {
    if t.Open? {
      match vs.lookup(ctx, t.name) {
        case List(elements) => EachAlike(vs, f, g, elements, ctx);
        case _ =>
      }
    }
  }

  ghost predicate StatesAlike(vs: Views, s: State, r: State) {
    && |s.sections| == |r.sections| && Alike(vs, s.collector, r.collector)
    && forall i | 0 <= i < |s.sections| ::
         s.sections[i].token == r.sections[i].token && Alike(vs, s.sections[i].before, r.sections[i].before)
  }

  lemma StepAlike(vs: Views, s: State, r: State, t: Token)
    requires StatesAlike(vs, s, r)
    ensures Step(s, t).Some? <==> Step(r, t).Some?
    ensures Step(s, t).Some? ==> StatesAlike(vs, Step(s, t).value, Step(r, t).value)
  {
    match t {
      case Open(_, _, _, _) =>
      case Close(_, start, _) =>
        if s.sections != [] {
          var f, g := s.sections[|s.sections| - 1], r.sections[|r.sections| - 1];
          forall ctx
            ensures Render(vs, Push(f.before, Section(f.token, s.collector, start)), ctx)
                 == Render(vs, Push(g.before, Section(g.token, r.collector, start)), ctx)
          {
            SectionAlike(vs, f.token, s.collector, r.collector, start, ctx);
          }
        }
      case _ =>
        forall ctx ensures Render(vs, Push(s.collector, Leaf(t)), ctx) == Render(vs, Push(r.collector, Leaf(t)), ctx) {
        }
    }
  }

  lemma {:induction false} StepsAlike(vs: Views, s: State, r: State, tokens: seq<Token>)
    requires StatesAlike(vs, s, r)
    ensures Steps(s, tokens).Some? <==> Steps(r, tokens).Some?
    ensures Steps(s, tokens).Some? ==> StatesAlike(vs, Steps(s, tokens).value, Steps(r, tokens).value)
    decreases |tokens|
  {
    hide StatesAlike, Step;
    if tokens != [] {
      StepAlike(vs, s, r, tokens[0]);
      if Step(s, tokens[0]).Some? {
        StepsAlike(vs, Step(s, tokens[0]).value, Step(r, tokens[0]).value, tokens[1..]);
      }
    }
  }

  lemma OneText(s: State, t: Token)
    requires t.Text?
    ensures Steps(s, [t]) == Some(State(s.sections, Push(s.collector, Leaf(t))))
  {
    assert [t][1..] == [];
  }

  /** Joining two texts changes no rendering. */
  lemma JoinAlike(vs: Views, s: State, a: Token, b: Token)
    requires a.Text? && b.Text?
    ensures Steps(s, [a, b]).Some? && Steps(s, [JoinedText(a, b)]).Some?
    ensures StatesAlike(vs, Steps(s, [JoinedText(a, b)]).value, Steps(s, [a, b]).value)
  {
    OneText(s, a);
    OneText(State(s.sections, Push(s.collector, Leaf(a))), b);
    OneText(s, JoinedText(a, b));
    assert [a] + [b] == [a, b];
    StepsSplit(s, [a], [b]);
    var two := Push(Push(s.collector, Leaf(a)), Leaf(b));
    var one := Push(s.collector, Leaf(JoinedText(a, b)));
    forall ctx ensures Render(vs, one, ctx) == Render(vs, two, ctx) {
      var r := Render(vs, s.collector, ctx);
      assert r + a.text + b.text == r + (a.text + b.text);
      assert Render(vs, Push(s.collector, Leaf(a)), ctx) == r + a.text;
    }
    SelfAlike(vs, s);
  }

  lemma SelfAlike(vs: Views, s: State)
    ensures StatesAlike(vs, s, s)
  {
  }

  lemma {:induction false} SquashedAlike(vs: Views, s: State, tokens: seq<Token>)
    ensures Steps(s, Squashed(tokens)).Some? <==> Steps(s, tokens).Some?
    ensures Steps(s, tokens).Some? ==> StatesAlike(vs, Steps(s, Squashed(tokens)).value, Steps(s, tokens).value)
    decreases |tokens|
  {
    hide StatesAlike;
    if tokens == [] {
      SelfAlike(vs, s);
    } else {
      var init, t := tokens[..|tokens| - 1], tokens[|tokens| - 1];
      assert tokens == init + [t];
      SquashedAlike(vs, s, init);
      StepsSplit(s, init, [t]);
      StepsSplit(s, Squashed(init), [t]);
      if Steps(s, init).Some? {
        StepsAlike(vs, Steps(s, Squashed(init)).value, Steps(s, init).value, [t]);
      }
      LastJoined(vs, s, Squashed(init), t);
      if Steps(s, tokens).Some? {
        AlikeTransitive(vs, Steps(s, Squashed(tokens)).value, Steps(s, Squashed(init) + [t]).value, Steps(s, tokens).value);
      }
    }
  }

  lemma AlikeTransitive(vs: Views, s: State, r: State, q: State)
    requires StatesAlike(vs, s, r) && StatesAlike(vs, r, q)
    ensures StatesAlike(vs, s, q)
  {
  }

  lemma LastJoined(vs: Views, s: State, out: seq<Token>, t: Token)
    ensures Steps(s, Joined(out, t)).Some? <==> Steps(s, out + [t]).Some?
    ensures Steps(s, out + [t]).Some? ==> StatesAlike(vs, Steps(s, Joined(out, t)).value, Steps(s, out + [t]).value)
  {
    hide StatesAlike;
    if t.Text? && out != [] && out[|out| - 1].Text? {
      var front, last := out[..|out| - 1], out[|out| - 1];
      assert out + [t] == front + [last, t];
      StepsSplit(s, front, [last, t]);
      StepsSplit(s, front, [JoinedText(last, t)]);
      if Steps(s, front).Some? {
        JoinAlike(vs, Steps(s, front).value, last, t);
      }
    } else if Steps(s, out + [t]).Some? {
      SelfAlike(vs, Steps(s, out + [t]).value);
    }
  }

  /** The names of the sections still open, if the tags match so far. */
  function OpenAfter(names: seq<string>, tokens: seq<Token>): Option<seq<string>>
    decreases |tokens|
  {
    if tokens == [] then Some(names)
    else match tokens[0]
      case Open(name, _, _, _) => OpenAfter(names + [name], tokens[1..])
      case Close(name, _, _) =>
        if names != [] && names[|names| - 1] == name then OpenAfter(names[..|names| - 1], tokens[1..]) else None
      case _ => OpenAfter(names, tokens[1..])
  }

  lemma {:induction false} MatchingSplit(names: seq<string>, x: seq<Token>, y: seq<Token>)
    ensures Matching(names, x + y) == match OpenAfter(names, x) { case None => false case Some(now) => Matching(now, y) }
    decreases |x|
  {
    if x == [] {
      assert x + y == y;
    } else {
      assert (x + y)[1..] == x[1..] + y;
      match x[0] {
        case Open(name, _, _, _) => MatchingSplit(names + [name], x[1..], y);
        case Close(name, _, _) =>
          if names != [] && names[|names| - 1] == name {
            MatchingSplit(names[..|names| - 1], x[1..], y);
          }
        case _ => MatchingSplit(names, x[1..], y);
      }
    }
  }

  lemma {:induction false} OpenAfterSplit(names: seq<string>, x: seq<Token>, y: seq<Token>)
    ensures OpenAfter(names, x + y) == match OpenAfter(names, x) { case None => None case Some(now) => OpenAfter(now, y) }
    decreases |x|
  {
    if x == [] {
      assert x + y == y;
    } else {
      assert (x + y)[1..] == x[1..] + y;
      match x[0] {
        case Open(name, _, _, _) => OpenAfterSplit(names + [name], x[1..], y);
        case Close(name, _, _) =>
          if names != [] && names[|names| - 1] == name {
            OpenAfterSplit(names[..|names| - 1], x[1..], y);
          }
        case _ => OpenAfterSplit(names, x[1..], y);
      }
    }
  }

  /** Joining texts opens and closes nothing. */
  lemma {:induction false} OpenNames(names: seq<string>, tokens: seq<Token>)
    ensures OpenAfter(names, Squashed(tokens)) == OpenAfter(names, tokens)
    decreases |tokens|
  {
    if tokens != [] {
      var init, t := tokens[..|tokens| - 1], tokens[|tokens| - 1];
      assert tokens == init + [t];
      var out := Squashed(init);
      OpenNames(names, init);
      OpenAfterSplit(names, init, [t]);
      OpenAfterSplit(names, out, [t]);
      if t.Text? && out != [] && out[|out| - 1].Text? {
        var front, last := out[..|out| - 1], out[|out| - 1];
        assert out == front + [last];
        OpenAfterSplit(names, front, [last]);
        OpenAfterSplit(names, front, [JoinedText(last, t)]);
        assert [last][1..] == [] && [t][1..] == [] && [JoinedText(last, t)][1..] == [];
      }
    }
  }

  lemma {:induction false} MatchingIsOpenAfter(names: seq<string>, tokens: seq<Token>)
    ensures Matching(names, tokens) <==> OpenAfter(names, tokens) == Some([])
    decreases |tokens|
  {
    assert tokens + [] == tokens;
    MatchingSplit(names, tokens, []);
  }

  /** The tokens the parser keeps, squashed or not, are balanced together, and their trees
      render the same text for every view. */
  lemma SquashKeepsRendering(vs: Views, tokens: seq<Option<Token>>, ctx: Context)
    ensures Balanced(Squashed(Present(tokens))) <==> Balanced(Present(tokens))
    ensures Balanced(Present(tokens))
        ==> Render(vs, Nested(Squashed(Present(tokens))), ctx) == Render(vs, Nested(Present(tokens)), ctx)
  {
    var ts := Present(tokens);
    OpenNames([], ts);
    MatchingIsOpenAfter([], ts);
    MatchingIsOpenAfter([], Squashed(ts));
    if Balanced(ts) {
      BalancedNests(EMPTY, [], ts);
      SquashedAlike(vs, EMPTY, ts);
    }
  }
}
