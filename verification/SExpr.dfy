/**
 The reader and printer of user/lisp/lisp.c.

 Input is the character in token_peek followed by what is still unread; the empty
 string is end of file.
 */
module SExpr {
  import Collector
  import opened Options

  const TOKEN_MAX: nat := 256
  const MAXFRAMES: nat := 50

  datatype Tree = Nil | Atom(text: string) | Cons(car: Tree, cdr: Tree)

  // ---------- Printing ----------

  /** What lisp_print writes. */
  function Text(t: Tree): string
    decreases t, 1
  {
    match t
    case Nil => "()"
    case Atom(s) => s
    case Cons(_, _) => "(" + Elements(t) + ")"
  }

  /** The inside of a printed list. */
  function Elements(t: Tree): string
    requires t.Cons?
    decreases t, 0
  {
    Text(t.car) + match t.cdr
                  case Nil => ""
                  case Atom(_) => " . " + Text(t.cdr)
                  case Cons(_, _) => " " + Elements(t.cdr)
  }

  /** lisp_print: recursive on the first fields, a loop along the rest of a list. */
  method Print(t: Tree) returns (out: string)
    ensures out == Text(t)
    decreases t
  {
    if t == Nil {
      return "()";
    } else if t.Atom? {
      return t.text;
    }
    out := "(";
    var obj := t;
    while true
      invariant obj.Cons? && (obj == t || obj < t)
      invariant out + Elements(obj) + ")" == Text(t)
      decreases obj
    {
      ghost var sofar := out;
      var first := Print(obj.car);
      out := out + first;
      if obj.cdr == Nil {
        assert sofar + Elements(obj) == out;
        break;
      }
      out := out + " ";
      if !obj.cdr.Cons? {
        out := out + ". ";
        var last := Print(obj.cdr);
        out := out + last;
        assert sofar + Elements(obj) == out;
        break;
      }
      assert sofar + Elements(obj) == out + Elements(obj.cdr);
      obj := obj.cdr;
    }
    out := out + ")";
  }

  // ---------- Tokens ----------

  predicate Space(c: char) {
    c == ' ' || c == '\t' || c == 11 as char || c == '\n' || c == 12 as char || c == '\r'
  }

  predicate AtomChar(c: char) {
    '!' <= c <= '\'' || '*' <= c <= '~'
  }

  /**
   Why the interpreter stops: exit(0), abort(), a write past token_text, a failed assert in
   gc_protect, or "Out of memory" in gc_alloc.
   */
  datatype Halt = EndOfInput | TooLong | Overflow | RootsFull | HeapFull

  datatype Lexed = Token(text: string, rest: string) | Stopped(why: Halt)

  function SkipSpaces(s: string): string {
    if s != "" && Space(s[0]) then SkipSpaces(s[1..]) else s
  }

  /** The number of leading characters that may occur in an atom. */
  function AtomLen(s: string): (n: nat)
    ensures n <= |s| && (n < |s| ==> !AtomChar(s[n]))
    ensures forall i :: 0 <= i < n ==> AtomChar(s[i])
  {
    if s != "" && AtomChar(s[0]) then 1 + AtomLen(s[1..]) else 0
  }

  lemma OneMore(tok: string, s: string)
    requires s != "" && AtomChar(s[0])
    ensures AtomLen(s) == 1 + AtomLen(s[1..]) && tok + [s[0]] + s[1..] == tok + s
  {
  }

  lemma NoMore(tok: string, s: string)
    requires s == "" || !AtomChar(s[0])
    ensures AtomLen(s) == 0 && (tok + s)[..|tok|] == tok && (tok + s)[|tok|..] == s
  {
  }

  function Finish(text: string, rest: string): Lexed {
    if rest == "" then Stopped(EndOfInput)
    else if |text| >= TOKEN_MAX then Stopped(Overflow)
    else Token(text, rest)
  }

  function Lex(s: string): Lexed {
    var s1 := SkipSpaces(s);
    if s1 != "" && (s1[0] == '(' || s1[0] == ')') then Finish(s1[..1], s1[1..])
    else
      var n := AtomLen(s1);
      if n > TOKEN_MAX then Stopped(TooLong) else Finish(s1[..n], s1[n..])
  }

  // ---------- Reading ----------

  /** used: how far allocptr has got. */
  datatype Parsed = Parsed(tree: Tree, rest: string, used: nat) | Halted(why: Halt)

  predicate Closes(tok: string) { tok != "" && tok[0] == ')' }

  /** The sizes of the root stack and of a heap space. */
  datatype Limits = Limits(frames: nat, cells: nat)

  const LIMITS := Limits(MAXFRAMES, Collector.HEAPSIZE)

  /** Frames on the root stack, cells reachable from the roots, and cells below allocptr. */
  datatype Memory = Memory(top: nat, live: nat, used: nat)

  function Deeper(m: Memory): Memory { m.(top := m.top + 1) }

  /** After a tree has been read into a protected variable. */
  function Holding(m: Memory, t: Tree, used: nat): Memory { m.(live := m.live + Cells(t), used := used) }

  function Cells(t: Tree): nat {
    match t
    case Nil => 0
    case Atom(_) => 1
    case Cons(a, d) => 1 + Cells(a) + Cells(d)
  }

  datatype Built = Built(used: nat) | Failed(why: Halt)

  /** gc_alloc */
  function NewCell(m: Memory, g: Limits): Built {
    match Collector.NewCell(m.used, m.live, g.cells)
    case None => Failed(HeapFull)
    case Some(used) => Built(used)
  }

  /** new_cons: a frame for its arguments, and a second one in gc_alloc if that has to collect. */
  function NewCons(m: Memory, g: Limits): Built {
    if m.top >= g.frames || (m.used >= g.cells && m.top + 1 >= g.frames) then Failed(RootsFull) else NewCell(m, g)
  }

  function Outcome(b: Built, t: Tree, rest: string): Parsed {
    match b
    case Failed(w) => Halted(w)
    case Built(used) => Parsed(t, rest, used)
  }

  function Consed(car: Tree, cdr: Tree, rest: string, m: Memory, g: Limits): Parsed {
    Outcome(NewCons(m, g), Cons(car, cdr), rest)
  }

  /** lisp_read_obj */
  function ParseObj(tok: string, s: string, m: Memory, g: Limits): Parsed
    decreases g.frames - m.top, 1
  {
    if tok == "" || tok[0] != '(' then Outcome(NewCell(m, g), Atom(tok), s)
    else match Lex(s)
         case Stopped(w) => Halted(w)
         case Token(tok2, s2) => ParseList(tok2, s2, m, g)
  }

  /** lisp_read_list */
  function ParseList(tok: string, s: string, m: Memory, g: Limits): Parsed
    decreases g.frames - m.top, 0
  {
    if Closes(tok) then Parsed(Nil, s, m.used)
    else if m.top >= g.frames then Halted(RootsFull)
    else match ParseObj(tok, s, Deeper(m), g)
         case Halted(w) => Halted(w)
         case Parsed(obj, s1, used) => ParseMore(obj, s1, Holding(Deeper(m), obj, used), g)
  }

  /** lisp_read_list after the first element. */
  function ParseMore(obj: Tree, s: string, m: Memory, g: Limits): Parsed
    decreases g.frames - m.top, 3
  {
    match Lex(s)
    case Stopped(w) => Halted(w)
    case Token(tok1, s2) =>
      if tok1 == "." then ParseDotted(obj, s2, m, g)
      else match ParseList(tok1, s2, m, g)
           case Halted(w) => Halted(w)
           case Parsed(rest, s3, used) => Consed(obj, rest, s3, Holding(m, rest, used), g)
  }

  /** The part of lisp_read_list after a dot; a list that does not close then reads as nil. */
  function ParseDotted(obj: Tree, s: string, m: Memory, g: Limits): Parsed
    decreases g.frames - m.top, 2
  {
    match Lex(s)
    case Stopped(w) => Halted(w)
    case Token(tok, s1) =>
      match ParseObj(tok, s1, m, g)
      case Halted(w) => Halted(w)
      case Parsed(tmp, s2, used) =>
        match Consed(obj, tmp, s2, Holding(m, tmp, used), g)
        case Halted(w) => Halted(w)
        case Parsed(obj2, _, used1) =>
          match Lex(s2)
          case Stopped(w) => Halted(w)
          case Token(tok2, s3) => Parsed(if Closes(tok2) then obj2 else Nil, s3, used1)
  }

  /** lisp_read */
  function Parse(s: string, m: Memory, g: Limits): Parsed {
    match Lex(s)
    case Stopped(w) => Halted(w)
    case Token(tok, s1) => if Closes(tok) then Parsed(Nil, s1, m.used) else ParseObj(tok, s1, m, g)
  }

  /** The reader: each method does to the input what the function of the same purpose says. */
  class Reader {
    const g: Limits
    /** token_peek and the unread input. */
    var input: string
    /** How many cells lie below allocptr. */
    var used: nat

    constructor (text: string, used: nat, g: Limits)
      ensures input == " " + text && this.used == used && this.g == g
    {
      input := " " + text;
      this.used := used;
      this.g := g;
    }

    /** The first loop of read_token. */
    method Skip()
      modifies this`input
      ensures input == SkipSpaces(old(input))
    {
      while input != "" && Space(input[0])
        invariant SkipSpaces(input) == SkipSpaces(old(input))
        decreases |input|
      {
        input := input[1..];
      }
    }

    /** The second loop of read_token. */
    method TakeAtom() returns (tok: string, tooLong: bool)
      modifies this`input
      ensures tooLong == (AtomLen(old(input)) > TOKEN_MAX)
      ensures !tooLong ==> tok == old(input)[..AtomLen(old(input))] && input == old(input)[AtomLen(old(input))..]
    {
      hide AtomLen;
      tok, tooLong := "", false;
      while input != "" && AtomChar(input[0])
        invariant tok + input == old(input) && |tok| + AtomLen(input) == AtomLen(old(input)) && |tok| <= TOKEN_MAX
        decreases |input|
      {
        OneMore(tok, input);
        if |tok| == TOKEN_MAX {
          tooLong := true;
          return;
        }
        tok := tok + [input[0]];
        input := input[1..];
      }
      NoMore(tok, input);
    }

    method ReadToken() returns (r: Lexed)
      modifies this`input
      ensures r == Lex(old(input))
      ensures r.Token? ==> input == r.rest
    {
      Skip();
      var tok := "";
      if input != "" && (input[0] == '(' || input[0] == ')') {
        tok := input[..1];
        input := input[1..];
      } else {
        var tooLong;
        tok, tooLong := TakeAtom();
        if tooLong {
          return Stopped(TooLong);
        }
      }
      if input == "" {
        return Stopped(EndOfInput);
      }
      if |tok| >= TOKEN_MAX {
        return Stopped(Overflow);
      }
      return Token(tok, input);
    }

    /** gc_alloc, with live cells reachable. */
    method Alloc(live: nat) returns (ok: bool)
      modifies this`used
      ensures Collector.NewCell(old(used), live, g.cells) == if ok then Some(used) else None
    {
      if used >= g.cells {
        used := live;
      }
      ok := used < g.cells;
      if ok {
        used := used + 1;
      }
    }

    method MakeCons(car: Tree, cdr: Tree, top: nat, live: nat) returns (r: Parsed)
      modifies this`used
      ensures r == Consed(car, cdr, input, Memory(top, live, old(used)), g)
      ensures r.Parsed? ==> used == r.used
    {
      if top >= g.frames {
        return Halted(RootsFull);
      }
      if used >= g.cells && top + 1 >= g.frames {
        return Halted(RootsFull);
      }
      var ok := Alloc(live);
      if !ok {
        return Halted(HeapFull);
      }
      return Parsed(Cons(car, cdr), input, used);
    }

    method ReadObj(tok: string, top: nat, live: nat) returns (r: Parsed)
      modifies this
      ensures r == ParseObj(tok, old(input), Memory(top, live, old(used)), g)
      ensures r.Parsed? ==> input == r.rest && used == r.used
      decreases g.frames - top, 1
    {
      if tok == "" || tok[0] != '(' {
        var ok := Alloc(live);
        if !ok {
          return Halted(HeapFull);
        }
        return Parsed(Atom(tok), input, used);
      }
      var t := ReadToken();
      if t.Stopped? {
        return Halted(t.why);
      }
      r := ReadList(t.text, top, live);
    }

    method ReadList(tok: string, top: nat, live: nat) returns (r: Parsed)
      modifies this
      ensures r == ParseList(tok, old(input), Memory(top, live, old(used)), g)
      ensures r.Parsed? ==> input == r.rest && used == r.used
      decreases g.frames - top, 0
    {
      if Closes(tok) {
        return Parsed(Nil, input, used);
      }
      if top >= g.frames {
        return Halted(RootsFull);
      }
      var obj := ReadObj(tok, top + 1, live);
      if obj.Halted? {
        return obj;
      }
      var t := ReadToken();
      if t.Stopped? {
        return Halted(t.why);
      }
      var held := live + Cells(obj.tree);
      if t.text == "." {
        r := ReadDotted(obj.tree, top + 1, held);
        return;
      }
      var tmp := ReadList(t.text, top + 1, held);
      if tmp.Halted? {
        return tmp;
      }
      r := MakeCons(obj.tree, tmp.tree, top + 1, held + Cells(tmp.tree));
    }

    method ReadDotted(obj: Tree, top: nat, live: nat) returns (r: Parsed)
      modifies this
      ensures r == ParseDotted(obj, old(input), Memory(top, live, old(used)), g)
      ensures r.Parsed? ==> input == r.rest && used == r.used
      decreases g.frames - top, 2
    {
      var t := ReadToken();
      if t.Stopped? {
        return Halted(t.why);
      }
      var tmp := ReadObj(t.text, top, live);
      if tmp.Halted? {
        return tmp;
      }
      var obj2 := MakeCons(obj, tmp.tree, top, live + Cells(tmp.tree));
      if obj2.Halted? {
        return obj2;
      }
      t := ReadToken();
      if t.Stopped? {
        return Halted(t.why);
      }
      return Parsed(if Closes(t.text) then obj2.tree else Nil, input, used);
    }

    method Read(top: nat, live: nat) returns (r: Parsed)
      modifies this
      ensures r == Parse(old(input), Memory(top, live, old(used)), g)
      ensures r.Parsed? ==> input == r.rest && used == r.used
    {
      var t := ReadToken();
      if t.Stopped? {
        return Halted(t.why);
      }
      if Closes(t.text) {
        return Parsed(Nil, input, used);
      }
      r := ReadObj(t.text, top, live);
    }
  }

  // ---------- Which trees survive ----------

  predicate GoodText(s: string) {
    0 < |s| < TOKEN_MAX && forall i :: 0 <= i < |s| ==> AtomChar(s[i])
  }

  predicate GoodAtoms(t: Tree) {
    match t
    case Nil => true
    case Atom(s) => GoodText(s)
    case Cons(a, d) => GoodAtoms(a) && GoodAtoms(d)
  }

  /** No list has the atom "." after its first element. */
  predicate NoDots(t: Tree) {
    t.Cons? ==> NoDots(t.car) && NoDots(t.cdr) && (t.cdr.Cons? ==> t.cdr.car != Atom("."))
  }

  /** What the reader can give back. */
  predicate Readable(t: Tree) { GoodAtoms(t) && NoDots(t) }

  // ---------- What reading a tree takes ----------

  /** Making the cells of a tree in the order of reading, with the frames that reading takes. */
  function Build(t: Tree, m: Memory, g: Limits): Built
    decreases t, 0
  {
    match t
    case Nil => Built(m.used)
    case Atom(_) => NewCell(m, g)
    case Cons(a, d) =>
      if m.top >= g.frames then Failed(RootsFull)
      else match Build(a, Deeper(m), g)
           case Failed(w) => Failed(w)
           case Built(used) => BuildRest(d, Holding(Deeper(m), a, used), g)
  }

  /** The rest of a list and the cons. */
  function BuildRest(d: Tree, m: Memory, g: Limits): Built
    decreases d, 1
  {
    match Build(d, m, g)
    case Failed(w) => Failed(w)
    case Built(used) => NewCons(Holding(m, d, used), g)
  }

  function Max(a: nat, b: nat): nat { if a < b then b else a }

  /** Frames that reading the printed form of a tree takes when nothing is collected. */
  function Height(t: Tree): nat {
    match t
    case Nil => 0
    case Atom(_) => 0
    case Cons(a, d) => 1 + Max(1, Max(Height(a), Height(d)))
  }

  /** Frames in use when cell n of a tree, in the order of reading, is made by way of a collection. */
  function CollectingAt(t: Tree, n: nat): nat
    requires n < Cells(t)
  {
    match t
    case Atom(_) => 0
    case Cons(a, d) =>
      if n < Cells(a) then 1 + CollectingAt(a, n)
      else if n < Cells(a) + Cells(d) then 1 + CollectingAt(d, n - Cells(a))
      else 3
  }

  /** The root stack is deep enough: for the tree, and for the collection if there is one. */
  predicate FramesFit(t: Tree, m: Memory, g: Limits)
    requires m.used <= g.cells
  {
    && m.top + Height(t) <= g.frames
    && (m.used + Cells(t) > g.cells ==> m.top + CollectingAt(t, g.cells - m.used) <= g.frames)
  }

  predicate Enough(t: Tree, m: Memory, g: Limits)
    requires m.used <= g.cells
  {
    m.live + Cells(t) <= g.cells && FramesFit(t, m, g)
  }

  /** What is reachable lies below allocptr. */
  predicate Sound(m: Memory, g: Limits) { m.top <= g.frames && m.live <= m.used <= g.cells }

  /** Where allocptr is after n more cells that all stay reachable; at most one collection. */
  function UsedAfter(m: Memory, n: nat, g: Limits): nat { if m.used + n <= g.cells then m.used + n else m.live + n }

  /** The cells of a tree can be made exactly when the cells and the frames are enough. */
  lemma {:induction false} BuildExact(t: Tree, m: Memory, g: Limits)
    requires Sound(m, g)
    ensures Build(t, m, g).Built? <==> Enough(t, m, g)
    ensures Build(t, m, g).Built? ==> Build(t, m, g).used == UsedAfter(m, Cells(t), g)
  {
    hide Enough, NewCons, NewCell, Cells;
    if !t.Cons? || m.top >= g.frames {
      LeafExact(t, m, g);
    } else {
      var a, d := t.car, t.cdr;
      assert t == Cons(a, d);
      EnoughFirst(a, d, m, g);
      BuildExact(a, Deeper(m), g);
      if Enough(a, Deeper(m), g) {
        var m1 := Holding(Deeper(m), a, UsedAfter(m, Cells(a), g));
        EnoughParts(a, d, m, m1, g);
        BuildExact(d, m1, g);
        assert Build(t, m, g) == BuildRest(d, m1, g);
      }
    }
  }

  lemma LeafExact(t: Tree, m: Memory, g: Limits)
    requires Sound(m, g) && (!t.Cons? || m.top >= g.frames)
    ensures Build(t, m, g).Built? <==> Enough(t, m, g)
    ensures Build(t, m, g).Built? ==> Build(t, m, g).used == UsedAfter(m, Cells(t), g)
  {
  }

  lemma ConsParts(a: Tree, d: Tree, n: nat)
    requires n <= Cells(a) + Cells(d)
    ensures Cells(Cons(a, d)) == 1 + Cells(a) + Cells(d)
    ensures Height(Cons(a, d)) == 1 + Max(1, Max(Height(a), Height(d)))
    ensures n < Cells(a) ==> CollectingAt(Cons(a, d), n) == 1 + CollectingAt(a, n)
    ensures Cells(a) <= n < Cells(a) + Cells(d) ==> CollectingAt(Cons(a, d), n) == 1 + CollectingAt(d, n - Cells(a))
    ensures n == Cells(a) + Cells(d) ==> CollectingAt(Cons(a, d), n) == 3
  {
  }

  lemma EnoughFirst(a: Tree, d: Tree, m: Memory, g: Limits)
    requires Sound(m, g) && m.top < g.frames
    ensures Enough(Cons(a, d), m, g) ==> Enough(a, Deeper(m), g)
    ensures Enough(a, Deeper(m), g) ==> Sound(Holding(Deeper(m), a, UsedAfter(m, Cells(a), g)), g)
  {
    hide Cells, Height, CollectingAt;
    ConsParts(a, d, 0);
    if g.cells - m.used < Cells(a) { ConsParts(a, d, g.cells - m.used); }
  }

  /** The cells and frames for a cons are those for its parts, one after the other, and for itself. */
  lemma EnoughParts(a: Tree, d: Tree, m: Memory, m1: Memory, g: Limits)
    requires Sound(m, g) && Sound(m1, g) && m.top < g.frames && Enough(a, Deeper(m), g)
    requires m1 == Holding(Deeper(m), a, UsedAfter(m, Cells(a), g))
    ensures Enough(Cons(a, d), m, g) ==> Enough(d, m1, g)
    ensures Enough(d, m1, g) ==>
              var r := NewCons(Holding(m1, d, UsedAfter(m1, Cells(d), g)), g);
              && (r.Built? <==> Enough(Cons(a, d), m, g))
              && (r.Built? ==> r.used == UsedAfter(m, Cells(Cons(a, d)), g))
  {
    hide Cells, Height, CollectingAt;
    var k := g.cells - m.used;
    ConsParts(a, d, if k <= Cells(a) + Cells(d) then k else 0);
    if k < Cells(a) {
      assert m1.used == m1.live;
    } else {
      assert m1.used == m.used + Cells(a);
    }
  }

  lemma {:induction false} CollectingBound(t: Tree, n: nat)
    requires n < Cells(t)
    ensures CollectingAt(t, n) <= Height(t) + 1
  {
    if t.Cons? {
      if n < Cells(t.car) {
        CollectingBound(t.car, n);
      } else if n < Cells(t.car) + Cells(t.cdr) {
        CollectingBound(t.cdr, n - Cells(t.car));
      }
    }
  }

  /** Why the cells of a tree cannot be made. */
  lemma {:induction false} BuildFails(t: Tree, m: Memory, g: Limits)
    requires Sound(m, g) && Build(t, m, g).Failed?
    ensures Build(t, m, g).why == RootsFull || Build(t, m, g).why == HeapFull
    ensures m.live + Cells(t) <= g.cells ==> Build(t, m, g).why == RootsFull
    ensures m.top + Height(t) + 1 <= g.frames ==> Build(t, m, g).why == HeapFull
  {
    if t.Cons? && m.top < g.frames {
      var a, d := t.car, t.cdr;
      var r := Build(a, Deeper(m), g);
      BuildExact(a, Deeper(m), g);
      if r.Failed? {
        BuildFails(a, Deeper(m), g);
      } else {
        var m1 := Holding(Deeper(m), a, r.used);
        BuildExact(d, m1, g);
        if Build(d, m1, g).Failed? { BuildFails(d, m1, g); }
      }
    }
  }

  /** The text after the first element of a list, up to the end of the input. */
  function Tail(t: Tree, rest: string): string
    requires t.Cons?
  {
    (match t.cdr
     case Nil => ""
     case Atom(_) => " . " + Text(t.cdr)
     case Cons(_, _) => " " + Elements(t.cdr))
    + ")" + rest
  }

  lemma {:induction false} AtomLenOf(s: string, rest: string)
    requires rest == "" || !AtomChar(rest[0])
    requires forall i :: 0 <= i < |s| ==> AtomChar(s[i])
    ensures AtomLen(s + rest) == |s|
  {
    if s == "" {
      assert s + rest == rest;
    } else {
      AtomLenOf(s[1..], rest);
      assert (s + rest)[1..] == s[1..] + rest;
    }
  }

  lemma LexAtom(s: string, rest: string)
    requires GoodText(s) && rest != "" && !AtomChar(rest[0])
    ensures Lex(s + rest) == Token(s, rest)
  {
    AtomLenOf(s, rest);
    assert (s + rest)[0] == s[0];
    assert (s + rest)[..|s|] == s && (s + rest)[|s|..] == rest;
  }

  lemma LexParen(c: char, rest: string)
    requires (c == '(' || c == ')') && rest != ""
    ensures Lex([c] + rest) == Token([c], rest)
  {
    assert ([c] + rest)[1..] == rest;
  }

  lemma LexSpace(s: string)
    ensures Lex(" " + s) == Lex(s)
  {
    assert (" " + s)[1..] == s;
  }

  // ---------- The round trip ----------

  /** A token and then an object. */
  function ParseAt(s: string, m: Memory, g: Limits): Parsed {
    match Lex(s) case Stopped(w) => Halted(w) case Token(tok, s1) => ParseObj(tok, s1, m, g)
  }

  /** A token and then the list it starts. */
  function ListAt(s: string, m: Memory, g: Limits): Parsed {
    match Lex(s) case Stopped(w) => Halted(w) case Token(tok, s1) => ParseList(tok, s1, m, g)
  }

  predicate Delimited(t: Tree, rest: string) { rest != "" && (t.Atom? ==> !AtomChar(rest[0])) }

  function Expected(t: Tree, rest: string, m: Memory, g: Limits): Parsed {
    Outcome(Build(t, m, g), t, rest)
  }

  /** The first token of a printed tree. */
  lemma FirstToken(t: Tree, rest: string)
    requires GoodAtoms(t) && Delimited(t, rest)
    ensures Lex(Text(t) + rest).Token?
    ensures var tok := Lex(Text(t) + rest).text; !Closes(tok) && (tok == "." <==> t == Atom("."))
  {
    hide Lex, Text;
    TextStart(t);
    if t.Atom? {
      LexAtom(t.text, rest);
    } else {
      var inside := Text(t)[1..] + rest;
      assert Text(t) + rest == ['('] + inside;
      LexParen('(', inside);
    }
  }

  lemma TextStart(t: Tree)
    ensures t.Atom? ==> Text(t) == t.text
    ensures !t.Atom? ==> Text(t) != "" && Text(t)[0] == '('
  {
  }

  lemma ElementsSplit(t: Tree, rest: string)
    requires t.Cons?
    ensures Elements(t) + ")" + rest == Text(t.car) + Tail(t, rest)
    ensures Tail(t, rest) != "" && !AtomChar(Tail(t, rest)[0])
  {
  }

  /** Reading a printed tree makes its cells, gives the tree back and consumes exactly its text. */
  lemma {:induction false} ReadBack(t: Tree, rest: string, m: Memory, g: Limits)
    requires Readable(t) && Delimited(t, rest)
    ensures ParseAt(Text(t) + rest, m, g) == Expected(t, rest, m, g)
    decreases t, 1
  {
    match t
    case Atom(s) =>
      LexAtom(s, rest);
    case Nil =>
      assert "()" + rest == ['('] + ([')'] + rest);
      LexParen('(', [')'] + rest);
      LexParen(')', rest);
      CloseList(rest, m, g);
    case Cons(_, _) =>
      var inside := Elements(t) + ")" + rest;
      assert Text(t) + rest == ['('] + inside;
      LexParen('(', inside);
      ReadElements(t, rest, m, g);
  }

  lemma {:induction false} ReadElements(t: Tree, rest: string, m: Memory, g: Limits)
    requires Readable(t) && t.Cons? && rest != ""
    ensures ListAt(Elements(t) + ")" + rest, m, g) == Expected(t, rest, m, g)
    decreases t, 0
  {
    hide Lex, ParseObj, ParseList, ParseDotted, Readable, Text, Elements, NewCell;
    var tail, whole := Tail(t, rest), Elements(t) + ")" + rest;
    ReadableParts(t);
    if m.top >= g.frames {
      FullList(t, rest, m, g);
    }
    ElementsSplit(t, rest);
    FirstToken(t.car, tail);
    ReadBack(t.car, tail, Deeper(m), g);
    var first := Build(t.car, Deeper(m), g);
    if m.top < g.frames && first.Built? {
      var m1 := Holding(Deeper(m), t.car, first.used);
      assert Build(t, m, g) == BuildRest(t.cdr, m1, g);
      match t.cdr
      case Nil =>
        assert tail == [')'] + rest;
        LexParen(')', rest);
        CloseList(rest, m1, g);
        assert [')'] != ".";
        assert ParseMore(t.car, tail, m1, g) == Consed(t.car, Nil, rest, Holding(m1, Nil, m1.used), g);
        assert Build(Nil, m1, g) == Built(m1.used);
        AfterFirst(whole, t.car, tail, first.used, m, g);
      case Atom(s) =>
        ReadDot(t, rest, m1, g);
        AfterFirst(whole, t.car, tail, first.used, m, g);
      case Cons(_, _) =>
        var more := Elements(t.cdr) + ")" + rest;
        assert tail == " " + more;
        LexSpace(more);
        ElementsSplit(t.cdr, rest);
        FirstToken(t.cdr.car, Tail(t.cdr, rest));
        ReadElements(t.cdr, rest, m1, g);
        AfterFirst(whole, t.car, tail, first.used, m, g);
    } else if m.top < g.frames {
      FirstHalts(whole, first.why, m, g);
    }
  }

  lemma ReadableParts(t: Tree)
    requires t.Cons? && Readable(t)
    ensures Readable(t.car) && Readable(t.cdr) && (t.cdr.Cons? ==> Readable(t.cdr.car) && t.cdr.car != Atom("."))
    ensures GoodAtoms(t.car) && (t.cdr.Cons? ==> GoodAtoms(t.cdr.car))
    ensures t.cdr.Atom? ==> GoodText(t.cdr.text)
  {
  }

  lemma FullList(t: Tree, rest: string, m: Memory, g: Limits)
    requires t.Cons? && Readable(t) && rest != "" && m.top >= g.frames
    ensures ListAt(Elements(t) + ")" + rest, m, g) == Halted(RootsFull)
  {
    ElementsSplit(t, rest);
    FirstToken(t.car, Tail(t, rest));
  }

  /** A list whose first element cannot be read cannot be read either. */
  lemma FirstHalts(s: string, why: Halt, m: Memory, g: Limits)
    requires m.top < g.frames && Lex(s).Token? && !Closes(Lex(s).text)
    requires ParseAt(s, Deeper(m), g) == Halted(why)
    ensures ListAt(s, m, g) == Halted(why)
  {
  }

  lemma CloseList(rest: string, m: Memory, g: Limits)
    ensures ParseList([')'], rest, m, g) == Parsed(Nil, rest, m.used)
  {
  }

  /** A list whose first element has been read goes on with the next token. */
  lemma AfterFirst(s: string, obj: Tree, s1: string, used: nat, m: Memory, g: Limits)
    requires m.top < g.frames && Lex(s).Token? && !Closes(Lex(s).text)
    requires ParseAt(s, Deeper(m), g) == Parsed(obj, s1, used) && Lex(s1).Token?
    ensures ListAt(s, m, g) == ParseMore(obj, s1, Holding(Deeper(m), obj, used), g)
  {
  }

  lemma ReadDot(t: Tree, rest: string, m: Memory, g: Limits)
    requires Readable(t) && t.Cons? && t.cdr.Atom? && rest != ""
    ensures Lex(Tail(t, rest)).Token? && Lex(Tail(t, rest)).text == "."
    ensures ParseDotted(t.car, Lex(Tail(t, rest)).rest, m, g)
            == Outcome(BuildRest(t.cdr, m, g), t, rest)
  {
    hide Lex, GoodAtoms, NoDots, ParseList, NewCell;
    ReadableParts(t);
    var s := t.cdr.text;
    var close := [')'] + rest;
    var after := " " + (s + close);
    assert Tail(t, rest) == " " + ("." + after);
    LexSpace("." + after);
    LexAtom(".", after);
    LexSpace(s + close);
    LexAtom(s, close);
    LexParen(')', rest);
  }

  // ---------- Which trees do not come back ----------

  /** 1 for a token that is an atom's text rather than a parenthesis. */
  function Weight(tok: string): nat { if tok != "" && AtomChar(tok[0]) then 1 else 0 }

  /** The number of maximal runs of atom characters. */
  function Runs(s: string): nat
    decreases |s|
  {
    if s == "" then 0
    else if AtomLen(s) > 0 then 1 + Runs(s[AtomLen(s)..])
    else Runs(s[1..])
  }

  /** The runs that printing a tree takes: its atoms, and a dot for each pair that ends in one. */
  function Marks(t: Tree): nat {
    match t
    case Nil => 0
    case Atom(s) => Weight(s)
    case Cons(a, d) => Marks(a) + Marks(d) + if d.Atom? then Weight(d.text) else 0
  }

  lemma {:induction false} SpacesRuns(s: string)
    ensures Runs(SkipSpaces(s)) == Runs(s)
  {
    if s != "" && Space(s[0]) { SpacesRuns(s[1..]); }
  }

  lemma LexRuns(s: string)
    ensures Lex(s).Token? ==> Weight(Lex(s).text) + Runs(Lex(s).rest) == Runs(s)
  {
    SpacesRuns(s);
  }

  lemma SkipRun(c: char, s: string)
    requires !AtomChar(c)
    ensures Runs([c] + s) == Runs(s)
  {
    assert ([c] + s)[1..] == s;
  }

  lemma AtomRun(s: string, rest: string)
    requires GoodText(s) && (rest == "" || !AtomChar(rest[0]))
    ensures Runs(s + rest) == 1 + Runs(rest)
  {
    AtomLenOf(s, rest);
    assert (s + rest)[|s|..] == rest;
  }

  lemma {:induction false} TextRuns(t: Tree, rest: string)
    requires GoodAtoms(t) && (t.Atom? ==> rest == "" || !AtomChar(rest[0]))
    ensures Runs(Text(t) + rest) == Marks(t) + Runs(rest)
    decreases t, 1
  {
    match t
    case Atom(s) => AtomRun(s, rest);
    case Nil =>
      assert "()" + rest == ['('] + ([')'] + rest);
      SkipRun('(', [')'] + rest);
      SkipRun(')', rest);
    case Cons(_, _) =>
      assert Text(t) + rest == ['('] + (Elements(t) + ")" + rest);
      SkipRun('(', Elements(t) + ")" + rest);
      ElementsRuns(t, rest);
  }

  lemma PairRuns(s: string, rest: string)
    requires GoodText(s)
    ensures Runs(" . " + s + ")" + rest) == 2 + Runs(rest)
  {
    hide Runs;
    var close := [')'] + rest;
    assert " . " + s + ")" + rest == [' '] + ("." + ([' '] + (s + close)));
    SkipRun(' ', "." + ([' '] + (s + close)));
    AtomRun(".", [' '] + (s + close));
    SkipRun(' ', s + close);
    AtomRun(s, close);
    SkipRun(')', rest);
  }

  lemma {:induction false} ElementsRuns(t: Tree, rest: string)
    requires GoodAtoms(t) && t.Cons?
    ensures Runs(Elements(t) + ")" + rest) == Marks(t) + Runs(rest)
    decreases t, 0
  {
    hide Runs;
    ElementsSplit(t, rest);
    TextRuns(t.car, Tail(t, rest));
    match t.cdr
    case Nil =>
      assert Tail(t, rest) == [')'] + rest;
      SkipRun(')', rest);
    case Atom(s) =>
      PairRuns(s, rest);
    case Cons(_, _) =>
      assert Tail(t, rest) == [' '] + (Elements(t.cdr) + ")" + rest);
      SkipRun(' ', Elements(t.cdr) + ")" + rest);
      ElementsRuns(t.cdr, rest);
  }

  /** Runs that a tree in the reader's hands stands for: one more if it hides a dot it was read with. */
  function Paid(t: Tree): nat { Marks(t) + if NoDots(t) then 0 else 1 }

  /** Reading an object takes at least the runs its tree stands for. */
  lemma {:induction false} ObjCost(tok: string, s: string, m: Memory, g: Limits)
    ensures var r := ParseObj(tok, s, m, g); r.Parsed? ==> Paid(r.tree) + Runs(r.rest) <= Weight(tok) + Runs(s)
    ensures var r := ParseObj(tok, s, m, g); r.Parsed? && r.tree == Atom(".") ==> tok == "."
    decreases g.frames - m.top, 1
  {
    if tok != "" && tok[0] == '(' && Lex(s).Token? {
      LexRuns(s);
      ListCost(Lex(s).text, Lex(s).rest, m, g);
    }
  }

  lemma {:induction false} ListCost(tok: string, s: string, m: Memory, g: Limits)
    ensures var r := ParseList(tok, s, m, g); r.Parsed? ==>
      && !r.tree.Atom? && (r.tree.Cons? && r.tree.car == Atom(".") ==> tok == ".")
      && Paid(r.tree) + Runs(r.rest) <= Weight(tok) + Runs(s)
    decreases g.frames - m.top, 0
  {
    hide Lex, Runs, Marks;
    NilFree();
    if !Closes(tok) && m.top < g.frames {
      ObjCost(tok, s, Deeper(m), g);
      var first := ParseObj(tok, s, Deeper(m), g);
      if first.Parsed? && Lex(first.rest).Token? {
        var m1 := Holding(Deeper(m), first.tree, first.used);
        LexRuns(first.rest);
        var tok1, s2 := Lex(first.rest).text, Lex(first.rest).rest;
        if tok1 == "." {
          DottedCost(first.tree, s2, m1, g);
        } else {
          ListCost(tok1, s2, m1, g);
          var more := ParseList(tok1, s2, m1, g);
          if more.Parsed? { PaidCons(first.tree, more.tree); }
        }
      }
    }
  }

  /** A dot taken for a separator pays for the pair, with one to spare if the pair ends in a list. */
  lemma {:induction false} DottedCost(obj: Tree, s: string, m: Memory, g: Limits)
    ensures var r := ParseDotted(obj, s, m, g); r.Parsed? ==>
      && (r.tree == Nil || (r.tree.Cons? && r.tree.car == obj))
      && Paid(r.tree) + Runs(r.rest) <= Paid(obj) + 1 + Runs(s)
    decreases g.frames - m.top, 2
  {
    hide Lex, Runs, Marks;
    if Lex(s).Token? {
      LexRuns(s);
      ObjCost(Lex(s).text, Lex(s).rest, m, g);
      var tmp := ParseObj(Lex(s).text, Lex(s).rest, m, g);
      if tmp.Parsed? {
        LexRuns(tmp.rest);
        PaidCons(obj, tmp.tree);
        NilFree();
      }
    }
  }

  lemma NilFree()
    ensures Paid(Nil) == 0
  {
  }

  lemma PaidCons(a: Tree, d: Tree)
    ensures Paid(Cons(a, d)) <= Paid(a) + Paid(d) + 1
    ensures d.Nil? || (d.Cons? && d.car != Atom(".")) ==> Paid(Cons(a, d)) <= Paid(a) + Paid(d)
  {
  }

  /** The tree has been read and exactly its text consumed. */
  predicate IsRead(r: Parsed, t: Tree, rest: string) { r.Parsed? && r.tree == t && r.rest == rest }

  /**
   Print then read, for every tree of conses, nil and atoms with readable names: the text
   comes back as the same tree and exactly its text is consumed if and only if no list has
   the atom "." after its first element, the cells of the tree fit beside those that are
   reachable already, and the root stack is deep enough for reading it and, if allocptr
   reaches the end of the space on the way, for collecting at that point.
   */
  lemma RoundTrip(t: Tree, rest: string, m: Memory, g: Limits)
    requires GoodAtoms(t) && Delimited(t, rest) && Sound(m, g)
    ensures IsRead(Parse(Text(t) + rest, m, g), t, rest) <==> NoDots(t) && Enough(t, m, g)
    ensures NoDots(t) ==> Parse(Text(t) + rest, m, g) == Expected(t, rest, m, g)
  {
    hide Lex, ParseObj, Text, Build, Enough;
    FirstToken(t, rest);
    BuildExact(t, m, g);
    var s := Text(t) + rest;
    if NoDots(t) {
      ReadBack(t, rest, m, g);
    } else {
      TextRuns(t, rest);
      LexRuns(s);
      ObjCost(Lex(s).text, Lex(s).rest, m, g);
    }
  }

  /** Every atom has 1 to 255 characters, of the codes 33 to 39 and 42 to 126. */
  predicate Codes(t: Tree) {
    match t
    case Nil => true
    case Atom(s) =>
      0 < |s| < 256 && forall i :: 0 <= i < |s| ==> 33 <= s[i] as int <= 39 || 42 <= s[i] as int <= 126
    case Cons(a, d) => Codes(a) && Codes(d)
  }

  lemma {:induction false} CodesGood(t: Tree)
    ensures Codes(t) <==> GoodAtoms(t)
  {
    if t.Cons? {
      CodesGood(t.car);
      CodesGood(t.cdr);
    }
  }

  /** Blanks, that is codes 9 to 13 and 32, before a token do not matter. */
  lemma BlankSkipped(c: char, s: string)
    requires 9 <= c as int <= 13 || c as int == 32
    ensures Lex([c] + s) == Lex(s)
  {
    assert ([c] + s)[1..] == s;
  }

  /** The round trip by character codes: printed, with blanks before and a blank or parenthesis behind, and read. */
  lemma RoundTripCodes(t: Tree, blank: char, rest: string, m: Memory, g: Limits)
    requires Codes(t) && NoDots(t) && Sound(m, g) && (9 <= blank as int <= 13 || blank as int == 32)
    requires rest != "" && (9 <= rest[0] as int <= 13 || rest[0] as int in {32, 40, 41})
    ensures Parse([blank] + Text(t) + rest, m, g) == Expected(t, rest, m, g)
    ensures IsRead(Parse([blank] + Text(t) + rest, m, g), t, rest) <==> Enough(t, m, g)
  {
    hide Text, Build, ParseObj, Lex, Enough;
    CodesGood(t);
    RoundTrip(t, rest, m, g);
    BlankSkipped(blank, Text(t) + rest);
    assert [blank] + Text(t) + rest == [blank] + (Text(t) + rest);
  }

  /** For one: (+ 1 2). */
  lemma SumIsRead(rest: string, m: Memory)
    requires rest != "" && m.top + 5 <= MAXFRAMES && m.live + 6 <= Collector.HEAPSIZE && Sound(m, LIMITS)
    ensures var sum := Cons(Atom("+"), Cons(Atom("1"), Cons(Atom("2"), Nil)));
            IsRead(Parse("(+ 1 2)" + rest, m, LIMITS), sum, rest)
  {
    var sum := Cons(Atom("+"), Cons(Atom("1"), Cons(Atom("2"), Nil)));
    assert Text(sum) == "(+ 1 2)";
    assert Readable(sum) && Cells(sum) == 6 && Height(sum) == 4;
    hide Parse, Text;
    SpaceDecides(sum, rest, m, LIMITS);
  }

  /**
   With a frame to spare the cells decide alone.  With cells enough, fewer frames than the height
   of the tree make the root stack overflow.
   */
  lemma SpaceDecides(t: Tree, rest: string, m: Memory, g: Limits)
    requires Readable(t) && Delimited(t, rest) && Sound(m, g)
    ensures m.top + Height(t) + 1 <= g.frames ==>
              Parse(Text(t) + rest, m, g) == if m.live + Cells(t) <= g.cells
                                             then Parsed(t, rest, UsedAfter(m, Cells(t), g)) else Halted(HeapFull)
    ensures m.live + Cells(t) <= g.cells && m.top + Height(t) > g.frames ==>
              Parse(Text(t) + rest, m, g) == Halted(RootsFull)
  {
    hide Parse, Text, Build;
    RoundTrip(t, rest, m, g);
    BuildExact(t, m, g);
    if m.used + Cells(t) > g.cells { CollectingBound(t, g.cells - m.used); }
    if Build(t, m, g).Failed? { BuildFails(t, m, g); }
  }

  /** Equal texts come from equal trees. */
  lemma TextInjective(t: Tree, u: Tree)
    requires Readable(t) && Readable(u)
    ensures Text(t) == Text(u) ==> t == u
  {
    var g, m := Limits(Height(t) + Height(u) + 1, Cells(t) + Cells(u)), Memory(0, 0, 0);
    SpaceDecides(t, " ", m, g);
    SpaceDecides(u, " ", m, g);
  }

  function ListOf(n: nat): Tree {
    if n == 0 then Nil else Cons(Atom("x"), ListOf(n - 1))
  }

  lemma {:induction false} ListOfShape(n: nat)
    ensures GoodAtoms(ListOf(n)) && NoDots(ListOf(n)) && (ListOf(n).Cons? <==> n > 0)
  {
    if n > 0 {
      ListOfShape(n - 1);
    }
  }

  /** A flat list as long as the frames left: its atoms are made first, then the frames run out. */
  lemma {:induction false} ListFails(n: nat, m: Memory, g: Limits)
    requires Sound(m, g) && m.top <= g.frames <= m.top + n
    ensures n > 0 ==>
              Build(ListOf(n), m, g) == Failed(if m.live + (g.frames - m.top) <= g.cells then RootsFull else HeapFull)
    decreases n
  {
    if n > 0 && m.top < g.frames {
      var r := Build(Atom("x"), Deeper(m), g);
      if r.Built? { ListFails(n - 1, Holding(Deeper(m), Atom("x"), r.used), g); }
    }
  }

  /**
   From the interpreter's own loop, which holds one frame, no flat list of 49 atoms or more
   can be read back: the root stack overflows, unless there is not even room for 49 atoms.
   */
  lemma LongListAborts(n: nat, m: Memory)
    requires n >= 49 && m.top == 1 && Sound(m, LIMITS)
    ensures Parse(Text(ListOf(n)) + " ", m, LIMITS)
            == Halted(if m.live + 49 <= LIMITS.cells then RootsFull else HeapFull)
  {
    ListOfShape(n);
    ListFails(n, m, LIMITS);
    RoundTrip(ListOf(n), " ", m, LIMITS);
  }

  /** The complete tree of n levels over the atom x. */
  function Complete(n: nat): Tree {
    if n == 0 then Atom("x") else Cons(Complete(n - 1), Complete(n - 1))
  }

  function Power(n: nat): nat { if n == 0 then 1 else 2 * Power(n - 1) }

  lemma {:induction false} CompleteShape(n: nat)
    ensures Readable(Complete(n)) && Cells(Complete(n)) == 2 * Power(n) - 1 && Height(Complete(n)) <= n + 1
  {
    if n > 0 {
      CompleteShape(n - 1);
    }
  }

  /** A tree of 14 levels is shallow enough for the root stack and too big for the heap. */
  lemma CompleteTreeAborts(m: Memory)
    requires m.top == 1 && Sound(m, LIMITS)
    ensures Parse(Text(Complete(14)) + " ", m, LIMITS) == Halted(HeapFull)
  {
    hide Parse, Text, Complete;
    assert Power(7) == 128;
    assert Power(14) == 16384;
    CompleteShape(14);
    NotNil(14);
    SpaceDecides(Complete(14), " ", m, LIMITS);
  }

  lemma NotNil(n: nat)
    ensures Delimited(Complete(n), " ")
  {
  }

  /** A list whose second element is "." and whose third is its last is read as a dotted pair. */
  lemma DotIsNotAnElement(a: Tree, b: string, rest: string, m: Memory, g: Limits)
    requires Readable(a) && GoodText(b) && rest != "" && Sound(m, g)
    ensures var t, u := Cons(a, Cons(Atom("."), Cons(Atom(b), Nil))), Cons(a, Atom(b));
      Text(t) == Text(u) && (Enough(u, m, g) ==> IsRead(Parse(Text(t) + rest, m, g), u, rest))
  {
    var t, u := Cons(a, Cons(Atom("."), Cons(Atom(b), Nil))), Cons(a, Atom(b));
    assert Elements(t.cdr.cdr) == b + "";
    assert Elements(t.cdr) == "." + (" " + b);
    assert Elements(t) == Text(a) + (" " + ("." + (" " + b)));
    assert Elements(u) == Text(a) + (" . " + b);
    assert " . " + b == " " + ("." + (" " + b));
    RoundTrip(u, rest, m, g);
  }

  // ---------- What is not a printed tree ----------

  /** A closing parenthesis that closes nothing reads as nil. */
  lemma StrayParenthesis(rest: string, m: Memory, g: Limits)
    requires rest != ""
    ensures Parse(")" + rest, m, g) == Parsed(Nil, rest, m.used)
  {
    LexParen(')', rest);
  }

  /** More than one object after a dot: nil, and reading goes on behind the second. */
  lemma MalformedDot(a: string, b: string, c: string, rest: string, m: Memory, g: Limits)
    requires GoodText(a) && GoodText(b) && GoodText(c) && rest != "" && !AtomChar(rest[0])
    requires m.top + 2 <= g.frames && m.used + 3 <= g.cells
    ensures Parse("(" + a + " . " + b + " " + c + rest, m, g) == Parsed(Nil, rest, m.used + 3)
  {
    hide Lex, GoodText, AtomChar;
    var s3 := " " + c + rest;
    var s2 := " " + b + s3;
    var s1 := " ." + s2;
    NotAtomChars();
    assert "(" + a + " . " + b + " " + c + rest == "(" + (a + s1);
    LexParen('(', a + s1);
    LexAtom(a, s1);
    assert s1 == " " + ("." + s2);
    LexSpace("." + s2);
    LexAtom(".", s2);
    assert s2 == " " + (b + s3);
    LexSpace(b + s3);
    LexAtom(b, s3);
    assert s3 == " " + (c + rest);
    LexSpace(c + rest);
    LexAtom(c, rest);
    FirstOfAtom(a);
    FirstOfAtom(b);
    FirstOfAtom(c);
    assert ParseObj(a, s1, Deeper(m), g) == Parsed(Atom(a), s1, m.used + 1);
    var m1 := Holding(Deeper(m), Atom(a), m.used + 1);
    assert ParseObj(b, s3, m1, g) == Parsed(Atom(b), s3, m.used + 2);
    assert Lex(s2) == Token(b, s3) && Lex(s3) == Token(c, rest);
    assert ParseDotted(Atom(a), s2, m1, g) == Parsed(Nil, rest, m.used + 3);
    assert ParseMore(Atom(a), s1, m1, g) == Parsed(Nil, rest, m.used + 3);
    assert ParseList(a, s1, m, g) == Parsed(Nil, rest, m.used + 3);
  }

  lemma NotAtomChars()
    ensures !AtomChar(' ') && !AtomChar('(') && !AtomChar(')') && GoodText(".")
  {
  }

  lemma FirstOfAtom(a: string)
    requires GoodText(a)
    ensures a != "" && a[0] != '(' && a[0] != ')'
  {
    assert AtomChar(a[0]);
  }

  /** An atom of 256 characters is written past its buffer, a longer one aborts, and the end of the input ends all. */
  lemma LongTokens(a: string, rest: string)
    requires a != "" && forall i :: 0 <= i < |a| ==> 33 <= a[i] as int <= 39 || 42 <= a[i] as int <= 126
    requires rest == "" || rest[0] as int in {9, 10, 11, 12, 13, 32, 40, 41}
    ensures Lex(a + rest) ==
              if |a| > 256 then Stopped(TooLong) else if rest == "" then Stopped(EndOfInput)
              else if |a| == 256 then Stopped(Overflow) else Token(a, rest)
  {
    AtomLenOf(a, rest);
    assert (a + rest)[0] == a[0];
    assert (a + rest)[..|a|] == a && (a + rest)[|a|..] == rest;
  }

  // ---------- Interned names and lisp_equal ----------

  const HASHMAP_SIZE: nat := 2048

  datatype Node = Node(addr: nat, data: string)

  /** djbhash, on 64-bit words. */
  function DjbHash(s: string): nat {
    if s == "" then 5381 else (DjbHash(s[..|s| - 1]) * 33 + s[|s| - 1] as int) % 0x1_0000_0000_0000_0000
  }

  function Bucket(s: string): (b: nat)
    ensures b < HASHMAP_SIZE
  {
    DjbHash(s) % HASHMAP_SIZE
  }

  ghost predicate Injective(table: map<string, nat>) {
    forall s, t :: s in table && t in table && table[s] == table[t] ==> s == t
  }

  /** The table behind intern_string; malloc hands out addresses that were never used. */
  class Interner {
    const nodes: array<seq<Node>>
    var unused: nat
    /** The address of every name interned so far. */
    ghost var table: map<string, nat>

    ghost predicate Valid()
      reads this, nodes
    {
      && nodes.Length == HASHMAP_SIZE
      && (forall b, i :: 0 <= b < nodes.Length && 0 <= i < |nodes[b]| ==>
            var n := nodes[b][i]; n.data in table && table[n.data] == n.addr)
      && (forall s :: s in table ==> table[s] < unused && Node(table[s], s) in nodes[Bucket(s)])
      && Injective(table)
    }

    constructor ()
      ensures Valid() && table == map[] && fresh(nodes)
    {
      nodes := new seq<Node>[HASHMAP_SIZE](_ => []);
      unused := 0;
      table := map[];
    }

    /** Two calls return the same address exactly when they are given the same name. */
    method Intern(str: string) returns (addr: nat)
      requires Valid()
      modifies this, nodes
      ensures Valid() && str in table && addr == table[str]
      ensures forall s :: s in old(table) ==> s in table && table[s] == old(table)[s]
      ensures str in old(table) ==> table == old(table)
    {
      var b := Bucket(str);
      var i := 0;
      while i < |nodes[b]|
        invariant 0 <= i <= |nodes[b]|
        invariant forall j :: 0 <= j < i ==> nodes[b][j].data != str
      {
        if nodes[b][i].data == str {
          return nodes[b][i].addr;
        }
        i := i + 1;
      }
      assert str !in table;
      addr := unused;
      unused := unused + 1;
      nodes[b] := [Node(addr, str)] + nodes[b];
      table := table[str := addr];
    }
  }

  /** A tree as the interpreter holds it: atoms are interned addresses. */
  datatype Obj = ONil | OAtom(addr: nat) | OCons(car: Obj, cdr: Obj)

  /** lisp_equal */
  predicate LispEqual(a: Obj, b: Obj) {
    if a.ONil? || b.ONil? then a.ONil? && b.ONil?
    else if a.OCons? != b.OCons? then false
    else if a.OAtom? then a.addr == b.addr
    else LispEqual(a.car, b.car) && LispEqual(a.cdr, b.cdr)
  }

  ghost predicate Named(t: Tree, table: map<string, nat>) {
    match t
    case Nil => true
    case Atom(s) => s in table
    case Cons(a, d) => Named(a, table) && Named(d, table)
  }

  ghost function Interned(t: Tree, table: map<string, nat>): Obj
    requires Named(t, table)
  {
    match t
    case Nil => ONil
    case Atom(s) => OAtom(table[s])
    case Cons(a, d) => OCons(Interned(a, table), Interned(d, table))
  }

  /** Comparing addresses of interned names decides equality of trees. */
  lemma {:induction false} LispEqualExact(t: Tree, u: Tree, table: map<string, nat>)
    requires Injective(table) && Named(t, table) && Named(u, table)
    ensures LispEqual(Interned(t, table), Interned(u, table)) <==> t == u
  {
    if t.Cons? && u.Cons? {
      LispEqualExact(t.car, u.car, table);
      LispEqualExact(t.cdr, u.cdr, table);
    }
  }
}
