/** Conditional inclusion as section 6.10.1 of ISO/IEC 9899:1999 defines it, over
    files already cut into lines. It is the yardstick unifdef is measured against:
    the same function gives meaning to unifdef's input and to its output. */
module Preprocessor {
  import opened Options

  type Cond = nat
  type Text = nat

  datatype Line =
    | IfLine(c: Cond)
    | ElifLine(c: Cond)
    | ElseLine
    | EndifLine
    | TextLine(t: Text)

  /** One open group: was the text around it being kept, has one of its
      conditions already held, is the current branch kept, is it past #else? */
  datatype Frame = Frame(enclosing: bool, taken: bool, live: bool, inElse: bool)

  datatype Selection = Selection(frames: seq<Frame>, kept: seq<Text>)

  predicate Live(fs: seq<Frame>) {
    fs == [] || fs[|fs| - 1].live
  }

  function Front<T>(s: seq<T>): seq<T>
    requires s != []
  {
    s[..|s| - 1]
  }

  function Last<T>(s: seq<T>): T
    requires s != []
  {
    s[|s| - 1]
  }

  /** The innermost group at an #elif or #else. */
  function NextBranch(f: Frame, l: Line, truth: Cond -> bool): Frame
    requires l.ElifLine? || l.ElseLine?
  {
    var on := l.ElseLine? || truth(l.c);
    Frame(f.enclosing, f.taken || on, f.enclosing && !f.taken && on, l.ElseLine?)
  }

  /** One line of the file; None is a constraint violation. */
  function Advance(s: Selection, l: Line, truth: Cond -> bool): Option<Selection> {
    match l
    case TextLine(t) =>
      Some(s.(kept := if Live(s.frames) then s.kept + [t] else s.kept))
    case IfLine(c) =>
      var enclosing := Live(s.frames);
      Some(s.(frames := s.frames + [Frame(enclosing, truth(c), enclosing && truth(c), false)]))
    case EndifLine =>
      if s.frames == [] then None
      else Some(s.(frames := Front(s.frames)))
    case _ =>
      if s.frames == [] || Last(s.frames).inElse then None
      else Some(s.(frames := Front(s.frames) + [NextBranch(Last(s.frames), l, truth)]))
  }

  function Preprocess(lines: seq<Line>, truth: Cond -> bool): Option<Selection>
    decreases |lines|
  {
    if lines == [] then Some(Selection([], []))
    else
      match Preprocess(Front(lines), truth)
      case None => None
      case Some(s) => Advance(s, Last(lines), truth)
  }

  /** Every #if is closed and every #elif, #else and #endif belongs somewhere. */
  predicate WellNested(lines: seq<Line>, truth: Cond -> bool) {
    var r := Preprocess(lines, truth);
    r.Some? && r.value.frames == []
  }

  lemma {:induction false} PreprocessSnoc(lines: seq<Line>, l: Line, truth: Cond -> bool)
    ensures Preprocess(lines + [l], truth) ==
            match Preprocess(lines, truth)
            case None => None
            case Some(s) => Advance(s, l, truth)
  {
    assert Front(lines + [l]) == lines;
  }

  /** A file that is rejected somewhere stays rejected however it goes on. */
  lemma {:induction false} RejectedStaysRejected(a: seq<Line>, b: seq<Line>, truth: Cond -> bool)
    requires Preprocess(a, truth).None?
    ensures Preprocess(a + b, truth).None?
    decreases |b|
  {
    if b == [] {
      assert a + b == a;
    } else {
      RejectedStaysRejected(a, Front(b), truth);
      assert Front(a + b) == a + Front(b);
    }
  }
}
