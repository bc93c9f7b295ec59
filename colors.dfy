/**
  The colour catalogue of src/colors.py: four fixed HSV bound pairs and the
  `Color` flag enumeration whose members are combined with `|` and tested
  with `&`.
 */
module Colors {

  /** A three-channel value as OpenCV holds an 8-bit HSV pixel or a bound on one:
      hue, saturation, value. */
  datatype Hsv = Hsv(h: int, s: int, v: int)

  /** 8-bit HSV in OpenCV halves the hue, so hue runs over 0..180. */
  const HueMax: int := 180
  /** Saturation and value run over 0..255. */
  const ChannelMax: int := 255

  /** Every channel lies in its 8-bit HSV range. */
  predicate InGamut(p: Hsv) {
    0 <= p.h <= HueMax && 0 <= p.s <= ChannelMax && 0 <= p.v <= ChannelMax
  }

  /** Component-wise order on triples. */
  predicate Le(a: Hsv, b: Hsv) {
    a.h <= b.h && a.s <= b.s && a.v <= b.v
  }

  // The bound table, lower and upper triple per colour.
  const LYELLOW: Hsv := Hsv(10, 140, 145)
  const UYELLOW: Hsv := Hsv(30, 255, 255)
  const LPURPLE: Hsv := Hsv(66, 40, 0)
  const UPURPLE: Hsv := Hsv(175, 250, 160)
  const LRED: Hsv := Hsv(169, 35, 80)
  const URED: Hsv := Hsv(180, 255, 255)
  const LGREEN: Hsv := Hsv(33, 130, 0)
  const UGREEN: Hsv := Hsv(90, 255, 255)

  /** The members of the `Color` enumeration, in declaration order. */
  datatype ColorName = Yellow | Purple | Red | Green

  const AllColors: set<ColorName> := {Yellow, Purple, Red, Green}

  /** The lower bound the detector uses for colour `c`. */
  function Lower(c: ColorName): (l: Hsv)
    ensures InGamut(l)
  {
    match c
    case Yellow => LYELLOW
    case Purple => LPURPLE
    case Red => LRED
    case Green => LGREEN
  }

  /** The upper bound the detector uses for colour `c`; it is never below the lower one. */
  function Upper(c: ColorName): (u: Hsv)
    ensures InGamut(u)
    ensures Le(Lower(c), u)
  {
    match c
    case Yellow => UYELLOW
    case Purple => UPURPLE
    case Red => URED
    case Green => UGREEN
  }

  /** The table, entry by entry. */
  lemma BoundTable()
    ensures Lower(Yellow) == Hsv(10, 140, 145) && Upper(Yellow) == Hsv(30, 255, 255)
    ensures Lower(Purple) == Hsv(66, 40, 0) && Upper(Purple) == Hsv(175, 250, 160)
    ensures Lower(Red) == Hsv(169, 35, 80) && Upper(Red) == Hsv(180, 255, 255)
    ensures Lower(Green) == Hsv(33, 130, 0) && Upper(Green) == Hsv(90, 255, 255)
  {
  }

  /** The ranges are not disjoint: one triple lies within both Purple's and Red's bounds. */
  lemma PurpleAndRedOverlap()
    ensures exists p: Hsv :: Le(Lower(Purple), p) && Le(p, Upper(Purple))
                          && Le(Lower(Red), p) && Le(p, Upper(Red))
  {
    var p := Hsv(170, 100, 100);
    assert Le(Lower(Purple), p) && Le(p, Upper(Purple));
    assert Le(Lower(Red), p) && Le(p, Upper(Red));
  }

  /** The value of a `Color` flag: four bits, so every value from `Color(0)`
      to the union of all four members. */
  type Flags = bv4

  /** `Color(0)`, the empty selection. */
  const NoColor: Flags := 0

  /** Position of a member in the declaration. */
  function Index(c: ColorName): (i: nat)
    ensures i < 4
  {
    match c
    case Yellow => 0
    case Purple => 1
    case Red => 2
    case Green => 3
  }

  /** The value `auto()` gives a member of a flag enumeration: the next power
      of two in declaration order, so a single bit. */
  function Bit(c: ColorName): (b: Flags)
    ensures b == (1 as Flags) << Index(c)
    ensures b != 0 && b & (b - 1) == 0
  {
    match c
    case Yellow => 1
    case Purple => 2
    case Red => 4
    case Green => 8
  }

  /** `a | b` on two flags. */
  function Union(a: Flags, b: Flags): Flags {
    a | b
  }

  /** The truth value of `sel & Color.c`: a flag is true when its value is not zero. */
  predicate Has(sel: Flags, c: ColorName) {
    sel & Bit(c) != 0
  }

  /** The members a selection holds, as a set. */
  function Members(sel: Flags): set<ColorName> {
    set c | c in AllColors && Has(sel, c)
  }

  /** The flag holding exactly the members of `s`. */
  function FromSet(s: set<ColorName>): Flags {
    (if Yellow in s then Bit(Yellow) else 0)
    | (if Purple in s then Bit(Purple) else 0)
    | (if Red in s then Bit(Red) else 0)
    | (if Green in s then Bit(Green) else 0)
  }

  lemma InAllColors(c: ColorName)
    ensures c in AllColors
  {
  }

  /** Distinct members share no bit. */
  lemma BitsDisjoint(c: ColorName, d: ColorName)
    ensures Bit(c) & Bit(d) == 0 <==> c != d
  {
  }

  /** A single member, as a selection, holds that member and no other. */
  lemma MembersOfBit(c: ColorName)
    ensures Members(Bit(c)) == {c}
  {
    forall d | d in AllColors
      ensures Has(Bit(c), d) <==> d == c
    {
      BitsDisjoint(c, d);
    }
  }

  /** The empty selection holds nothing. */
  lemma MembersOfNoColor()
    ensures Members(NoColor) == {}
  {
  }

  /** `sel & Color.X` is true exactly when X was one of the flags united into `sel`. */
  lemma HasUnion(a: Flags, b: Flags, c: ColorName)
    ensures Has(Union(a, b), c) <==> Has(a, c) || Has(b, c)
  {
  }

  /** Union of flags is union of member sets. */
  lemma MembersUnion(a: Flags, b: Flags)
    ensures Members(Union(a, b)) == Members(a) + Members(b)
  {
    forall c | c in AllColors
      ensures Has(Union(a, b), c) <==> Has(a, c) || Has(b, c)
    {
      HasUnion(a, b, c);
    }
  }

  /** Union is commutative, associative and idempotent, with `Color(0)` as unit. */
  lemma UnionLaws(a: Flags, b: Flags, c: Flags)
    ensures Union(a, b) == Union(b, a)
    ensures Union(Union(a, b), c) == Union(a, Union(b, c))
    ensures Union(a, a) == a
    ensures Union(a, NoColor) == a
  {
  }

  /** Every set of members is the member set of exactly one flag. */
  lemma MembersOfFromSet(s: set<ColorName>)
    ensures Members(FromSet(s)) == s
  {
    forall c | c in AllColors
      ensures Has(FromSet(s), c) <==> c in s
    {
    }
    forall c | c in s
      ensures c in AllColors
    {
      InAllColors(c);
    }
  }

  /** A flag is determined by its members. */
  lemma FromSetOfMembers(sel: Flags)
    ensures FromSet(Members(sel)) == sel
  {
  }
}
