/**
 * Presentation markup shared by both track transformers: the nine screen
 * positions and their `{\anN}` tags, the optional `<font color=…>` wrapper,
 * and the removal of one leading `{\an8}` tag before the new one is added.
 */
module Markup {
  import opened Wrappers
  import opened Text

  /** The nine screen positions, in declaration order. */
  datatype SubPosition =
    | BottomLeft | BottomCenter | BottomRight
    | MiddleLeft | MiddleCenter | MiddleRight
    | TopLeft | TopCenter | TopRight

  /** The position used when none is given. */
  const DefaultPosition: SubPosition := BottomCenter

  /** The row-major grid index of a position, 1 (bottom left) to 9 (top right). */
  function GridIndex(p: SubPosition): (n: int)
    ensures 1 <= n <= 9
  {
    match p
    case BottomLeft => 1
    case BottomCenter => 2
    case BottomRight => 3
    case MiddleLeft => 4
    case MiddleCenter => 5
    case MiddleRight => 6
    case TopLeft => 7
    case TopCenter => 8
    case TopRight => 9
  }

  /** The Display text of a position: the override tag it stands for. */
  function Tag(p: SubPosition): (t: string)
    ensures |t| == 6
  {
    match p
    case BottomLeft => "{\\an1}"
    case BottomCenter => "{\\an2}"
    case BottomRight => "{\\an3}"
    case MiddleLeft => "{\\an4}"
    case MiddleCenter => "{\\an5}"
    case MiddleRight => "{\\an6}"
    case TopLeft => "{\\an7}"
    case TopCenter => "{\\an8}"
    case TopRight => "{\\an9}"
  }

  /** The tag that a transform strips from the start of a text, once. */
  const TopCenterTag: string := "{\\an8}"

  /** The digit character for 1..9. */
  function Digit(n: int): char
    requires 1 <= n <= 9
  {
    "123456789"[n - 1]
  }

  /** Every tag is `{\an` followed by the position's grid index and `}`. */
  lemma TagShape(p: SubPosition)
    ensures Tag(p) == "{\\an" + [Digit(GridIndex(p))] + "}"
  {
  }

  /** Distinct positions have distinct tags, and the default is `{\an2}`. */
  lemma TagInjective(p: SubPosition, q: SubPosition)
    ensures Tag(p) == Tag(q) <==> p == q
    ensures Tag(DefaultPosition) == "{\\an2}"
  {
    TagShape(p);
    TagShape(q);
    if Tag(p) == Tag(q) {
      assert Tag(p)[4] == Tag(q)[4];
      assert GridIndex(p) == GridIndex(q);
    }
  }

  /** Removes one leading `{\an8}`, if present (Rust's `strip_prefix`). */
  function StripTopCenter(t: string): (r: string)
    ensures StartsWith(t, TopCenterTag) ==> TopCenterTag + r == t
    ensures !StartsWith(t, TopCenterTag) ==> r == t
  {
    if StartsWith(t, TopCenterTag) then t[|TopCenterTag|..] else t
  }

  /** The opening color markup: `<font color="C">`, or nothing. */
  function ColorStart(color: Option<string>): string {
    match color
    case Some(c) => "<font color=\"" + c + "\">"
    case None => ""
  }

  /** The closing color markup: `</font>`, or nothing. */
  function ColorEnd(color: Option<string>): string {
    if color.Some? then "</font>" else ""
  }

  /**
   * The text of one line after the transform: the new position tag, a
   * space, then the text without its leading `{\an8}`, in color markup.
   */
  function Decorate(position: SubPosition, color: Option<string>, t: string): (r: string)
  {
    Tag(position) + " " + ColorStart(color) + StripTopCenter(t) + ColorEnd(color)
  }

  /** The number of characters the transform puts in front of the text. */
  function PrefixLength(position: SubPosition, color: Option<string>): nat {
    |Tag(position) + " " + ColorStart(color)|
  }

  /** Recovers the stripped text from a decorated one: the inverse of Decorate. */
  function Undecorate(position: SubPosition, color: Option<string>, r: string): string
  {
    var k := PrefixLength(position, color);
    if k + |ColorEnd(color)| <= |r| then r[k..|r| - |ColorEnd(color)|] else r
  }

  /**
   * A decorated text starts with the position tag and a space, carries the
   * color markup around the stripped text, and gives that text back.
   */
  lemma DecorateSpec(position: SubPosition, color: Option<string>, t: string)
    ensures StartsWith(Decorate(position, color, t), Tag(position) + " ")
    ensures color.None? ==> Decorate(position, color, t) == Tag(position) + " " + StripTopCenter(t)
    ensures Undecorate(position, color, Decorate(position, color, t)) == StripTopCenter(t)
    ensures |Decorate(position, color, t)| == PrefixLength(position, color) + |StripTopCenter(t)| + |ColorEnd(color)|
  {
    var pre, cs, stripped, ce := Tag(position) + " ", ColorStart(color), StripTopCenter(t), ColorEnd(color);
    ConcatParts(pre, cs, stripped, ce);
    if color.None? {
      assert pre + cs + stripped + ce == pre + stripped;
    }
  }

  /** At most one `{\an8}` is removed: six characters or none. */
  lemma StripRemovesAtMostOne(t: string)
    ensures |t| - |StripTopCenter(t)| in {0, 6}
    ensures StripTopCenter(t) == t <==> !StartsWith(t, TopCenterTag)
  {
    if StartsWith(t, TopCenterTag) {
      assert |StripTopCenter(t)| == |t| - 6;
    }
  }

  /** Two texts with the same transform agree after stripping: Decorate loses nothing else. */
  lemma DecorateInjective(position: SubPosition, color: Option<string>, t1: string, t2: string)
    requires Decorate(position, color, t1) == Decorate(position, color, t2)
    ensures StripTopCenter(t1) == StripTopCenter(t2)
  {
    DecorateSpec(position, color, t1);
    DecorateSpec(position, color, t2);
  }
}
