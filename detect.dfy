/**
  The detector of src/detect.py: the per-colour counting rule of `findCandy`
  and the per-image result assembled by `countCandy`. The OpenCV stages are
  the parameter `cv`; `countCandy` is modelled from the downsampled HSV image on.
 */
module Detect {
  import opened Colors
  import opened OpenCv

  /** Contours of area at most this are noise. */
  const MinArea: real := 50.0
  /** Contours of area at least this are merged blobs or background. */
  const MaxArea: real := 1600.0

  /** The size a contour must have to be counted as one candy; both ends excluded. */
  predicate CandySized(area: real) {
    MinArea < area && area < MaxArea
  }

  /** `morph`: an opening with a 3 by 3 kernel, then a closing with a 2 by 2 kernel. */
  function Morph(cv: Stages, src: Raster): Raster {
    var afterOpen := cv.morphologyEx(src, MorphOpen, Ones(3));
    cv.morphologyEx(afterOpen, MorphClose, Ones(2))
  }

  /** The contours `findCandy` filters: threshold, morphology, blur, edges, outer contours. */
  function CandyContours(cv: Stages, src: Image, lower: Hsv, upper: Hsv): seq<Contour> {
    var mask := InRange(src, lower, upper);
    var mask := Morph(cv, mask);
    var mask := cv.gaussianBlur(mask, 3, 3, 0);
    var mask := cv.canny(mask, 1000, 0);
    cv.findContours(mask, RetrExternal, ChainApproxSimple)
  }

  /** The area of each contour, in order. */
  function Areas(area: Contour -> real, cs: seq<Contour>): (r: seq<real>)
    ensures |r| == |cs|
    ensures forall i :: 0 <= i < |cs| ==> r[i] == area(cs[i])
  {
    seq(|cs|, i requires 0 <= i < |cs| => area(cs[i]))
  }

  /** How many of `areas` have candy size, counted from the front. It never exceeds the number of areas. */
  function CountSized(areas: seq<real>): (n: nat)
    ensures n <= |areas|
  {
    if areas == [] then 0
    else CountSized(areas[..|areas| - 1]) + (if CandySized(areas[|areas| - 1]) then 1 else 0)
  }

  /** The positions holding a candy-sized area: the reference for what is counted. */
  function SizedIndices(areas: seq<real>): set<int> {
    set i | 0 <= i < |areas| && CandySized(areas[i])
  }

  /** The count is exactly the number of contours whose area is strictly between the bounds. */
  lemma {:induction false} CountSizedIsSizedIndices(areas: seq<real>)
    ensures CountSized(areas) == |SizedIndices(areas)|
  {
    if areas != [] {
      var n := |areas| - 1;
      var front := areas[..n];
      CountSizedIsSizedIndices(front);
      var last := if CandySized(areas[n]) then {n} else {};
      assert SizedIndices(areas) == SizedIndices(front) + last by {
        forall i | 0 <= i < n ensures areas[i] == front[i] { }
      }
      assert n !in SizedIndices(front);
    }
  }

  /** Counting is additive over concatenation, so each further contour adds 0 or 1. */
  lemma {:induction false} CountSizedAppend(a: seq<real>, b: seq<real>)
    ensures CountSized(a + b) == CountSized(a) + CountSized(b)
  {
    if b == [] {
      assert a + b == a;
    } else {
      var n := |b| - 1;
      CountSizedAppend(a, b[..n]);
      assert (a + b)[..|a + b| - 1] == a + b[..n];
      assert (a + b)[|a + b| - 1] == b[n];
    }
  }

  /** The count is zero exactly when no area has candy size. */
  lemma {:induction false} CountSizedZero(areas: seq<real>)
    ensures CountSized(areas) == 0 <==> forall i :: 0 <= i < |areas| ==> !CandySized(areas[i])
  {
    if areas != [] {
      var n := |areas| - 1;
      CountSizedZero(areas[..n]);
      assert forall i :: 0 <= i < n ==> areas[..n][i] == areas[i];
    }
  }

  /** The count equals the number of contours exactly when every area has candy size. */
  lemma {:induction false} CountSizedAll(areas: seq<real>)
    ensures CountSized(areas) == |areas| <==> forall i :: 0 <= i < |areas| ==> CandySized(areas[i])
  {
    if areas != [] {
      var n := |areas| - 1;
      CountSizedAll(areas[..n]);
      assert forall i :: 0 <= i < n ==> areas[..n][i] == areas[i];
    }
  }

  /** Areas of exactly 50 or 1600 are not counted; 51 and 1599 are. */
  lemma AreaBoundaries()
    ensures CountSized([50.0]) == 0 && CountSized([1600.0]) == 0
    ensures CountSized([51.0]) == 1 && CountSized([1599.0]) == 1
  {
    assert [50.0][..0] == [] && [1600.0][..0] == [] && [51.0][..0] == [] && [1599.0][..0] == [];
  }

  /** What `findCandy` returns, as a function of the image and the bounds. */
  function CandyCount(cv: Stages, src: Image, lower: Hsv, upper: Hsv): (n: nat)
    ensures n <= |CandyContours(cv, src, lower, upper)|
  {
    CountSized(Areas(cv.contourArea, CandyContours(cv, src, lower, upper)))
  }

  /** Two images whose pixels fall inside or outside the bounds alike give the same count. */
  lemma SameMaskSameCount(cv: Stages, a: Image, b: Image, lower: Hsv, upper: Hsv)
    requires |a| == |b|
    requires forall i :: 0 <= i < |a| ==> |a[i]| == |b[i]|
    requires forall i, j :: 0 <= i < |a| && 0 <= j < |a[i]| ==>
               (InBounds(a[i][j], lower, upper) <==> InBounds(b[i][j], lower, upper))
    ensures CandyCount(cv, a, lower, upper) == CandyCount(cv, b, lower, upper)
  {
    var ma, mb := InRange(a, lower, upper), InRange(b, lower, upper);
    forall i | 0 <= i < |a| ensures ma[i] == mb[i] {
      assert |ma[i]| == |mb[i]|;
      forall j | 0 <= j < |ma[i]| ensures ma[i][j] == mb[i][j] { }
    }
    assert ma == mb;
  }

  /** `findCandy`: run the stages, then count the contours of candy size. */
  method FindCandy(cv: Stages, src: Image, lower: Hsv, upper: Hsv) returns (count: nat)
    ensures count == CandyCount(cv, src, lower, upper)
    ensures count <= |CandyContours(cv, src, lower, upper)|
  {
    count := 0;
    var mask := InRange(src, lower, upper);
    mask := Morph(cv, mask);
    mask := cv.gaussianBlur(mask, 3, 3, 0);
    mask := cv.canny(mask, 1000, 0);
    var contours := cv.findContours(mask, RetrExternal, ChainApproxSimple);
    for i := 0 to |contours|
      invariant count <= i
      invariant count == CountSized(Areas(cv.contourArea, contours[..i]))
    {
      assert Areas(cv.contourArea, contours[..i + 1])
          == Areas(cv.contourArea, contours[..i]) + [cv.contourArea(contours[i])];
      CountSizedAppend(Areas(cv.contourArea, contours[..i]), [cv.contourArea(contours[i])]);
      assert [cv.contourArea(contours[i])][..0] == [];
      if cv.contourArea(contours[i]) > 50.0 && cv.contourArea(contours[i]) < 1600.0 {
        count := count + 1;
      }
    }
    assert contours[..|contours|] == contours;
  }

  /** The key under which a colour's count is reported. */
  function Key(c: ColorName): string {
    match c
    case Yellow => "yellow"
    case Purple => "purple"
    case Red => "red"
    case Green => "green"
  }

  /** Distinct colours are reported under distinct keys. */
  lemma KeyInjective(c: ColorName, d: ColorName)
    ensures Key(c) == Key(d) <==> c == d
  {
  }

  /** The keys of the selected colours. */
  function SelectedKeys(sel: Flags): set<string> {
    set c | c in Members(sel) :: Key(c)
  }

  /** The dictionary `countCandy` builds for one colour: its count under its key
      when the colour is selected, otherwise the empty dictionary. */
  function Entry(cv: Stages, img: Image, sel: Flags, c: ColorName): map<string, int> {
    if Has(sel, c) then map[Key(c) := CandyCount(cv, img, Lower(c), Upper(c))] else map[]
  }

  /** `countCandy` from the downsampled HSV image on: one entry per selected
      colour, merged with `|` (the right operand winning on a shared key) in the
      order red, yellow, green, purple. */
  function CountCandy(cv: Stages, img: Image, sel: Flags): map<string, int> {
    var red := Entry(cv, img, sel, Red);
    var yellow := Entry(cv, img, sel, Yellow);
    var green := Entry(cv, img, sel, Green);
    var purple := Entry(cv, img, sel, Purple);
    red + yellow + green + purple
  }

  /** Each colour's key is present exactly when the colour is selected, and then
      holds the count for that colour's own bounds. */
  lemma CountCandyLookup(cv: Stages, img: Image, sel: Flags, c: ColorName)
    ensures Key(c) in CountCandy(cv, img, sel) <==> Has(sel, c)
    ensures Has(sel, c) ==> CountCandy(cv, img, sel)[Key(c)] == CandyCount(cv, img, Lower(c), Upper(c))
  {
    var red := Entry(cv, img, sel, Red);
    var yellow := Entry(cv, img, sel, Yellow);
    var green := Entry(cv, img, sel, Green);
    var purple := Entry(cv, img, sel, Purple);
    forall d ensures Key(c) == Key(d) <==> c == d {
      KeyInjective(c, d);
    }
    assert CountCandy(cv, img, sel) == red + yellow + green + purple;
    match c
    case Red =>
      assert Key(c) !in yellow && Key(c) !in green && Key(c) !in purple;
    case Yellow =>
      assert Key(c) !in red && Key(c) !in green && Key(c) !in purple;
    case Green =>
      assert Key(c) !in red && Key(c) !in yellow && Key(c) !in purple;
    case Purple =>
      assert Key(c) !in red && Key(c) !in yellow && Key(c) !in green;
  }

  /** The keys of the result are exactly the names of the selected colours. */
  lemma CountCandyKeys(cv: Stages, img: Image, sel: Flags)
    ensures CountCandy(cv, img, sel).Keys == SelectedKeys(sel)
  {
    var r := CountCandy(cv, img, sel);
    forall k | k in r ensures k in SelectedKeys(sel) {
      var c :| c in AllColors && k in Entry(cv, img, sel, c);
      assert c in Members(sel);
    }
    forall k | k in SelectedKeys(sel) ensures k in r {
      var c :| c in Members(sel) && Key(c) == k;
      CountCandyLookup(cv, img, sel, c);
    }
  }

  /** Every selected colour's key maps to the (non-negative) count for its own bounds. */
  lemma CountCandyValues(cv: Stages, img: Image, sel: Flags)
    ensures forall c :: c in Members(sel) ==>
              Key(c) in CountCandy(cv, img, sel)
              && CountCandy(cv, img, sel)[Key(c)] == CandyCount(cv, img, Lower(c), Upper(c))
              && CountCandy(cv, img, sel)[Key(c)] >= 0
  {
    forall c | c in Members(sel)
      ensures Key(c) in CountCandy(cv, img, sel)
      ensures CountCandy(cv, img, sel)[Key(c)] == CandyCount(cv, img, Lower(c), Upper(c))
    {
      CountCandyLookup(cv, img, sel, c);
    }
  }

  /** The per-colour dictionaries have disjoint keys. */
  lemma EntriesDisjoint(cv: Stages, img: Image, sel: Flags, c: ColorName, d: ColorName)
    requires c != d
    ensures Entry(cv, img, sel, c).Keys !! Entry(cv, img, sel, d).Keys
  {
    KeyInjective(c, d);
  }

  /** Mapping a set of colours to their keys keeps its size. */
  lemma {:induction false} KeyImageSize(s: set<ColorName>)
    ensures |set c | c in s :: Key(c)| == |s|
    decreases |s|
  {
    if s != {} {
      var c :| c in s;
      var rest := s - {c};
      KeyImageSize(rest);
      var keys := set d | d in s :: Key(d);
      var restKeys := set d | d in rest :: Key(d);
      assert keys == restKeys + {Key(c)};
      assert Key(c) !in restKeys by {
        forall d | d in rest ensures Key(d) != Key(c) {
          KeyInjective(c, d);
        }
      }
    }
  }

  /** The merge drops and overwrites nothing: every per-colour entry survives
      unchanged and the result has one key per selected colour. */
  lemma MergeKeepsEntries(cv: Stages, img: Image, sel: Flags)
    ensures forall c, k :: k in Entry(cv, img, sel, c) ==>
              k in CountCandy(cv, img, sel) && CountCandy(cv, img, sel)[k] == Entry(cv, img, sel, c)[k]
    ensures |CountCandy(cv, img, sel)| == |Members(sel)|
  {
    var r := CountCandy(cv, img, sel);
    forall c, k | k in Entry(cv, img, sel, c)
      ensures k in r && r[k] == Entry(cv, img, sel, c)[k]
    {
      CountCandyLookup(cv, img, sel, c);
    }
    CountCandyKeys(cv, img, sel);
    KeyImageSize(Members(sel));
    assert |r| == |r.Keys|;
  }

  /** An empty selection, `Color(0)`, yields an empty dictionary. */
  lemma NoColorEmpty(cv: Stages, img: Image)
    ensures CountCandy(cv, img, NoColor) == map[]
  {
  }

  /** Selecting a single colour yields exactly that colour's count. */
  lemma SingleColor(cv: Stages, img: Image, c: ColorName)
    ensures CountCandy(cv, img, Bit(c)) == map[Key(c) := CandyCount(cv, img, Lower(c), Upper(c))]
  {
    var r := CountCandy(cv, img, Bit(c));
    MembersOfBit(c);
    CountCandyKeys(cv, img, Bit(c));
    assert r.Keys == {Key(c)};
    CountCandyLookup(cv, img, Bit(c), c);
  }

  /** The keys of a union of selections are the keys of each. */
  lemma SelectedKeysUnion(a: Flags, b: Flags)
    ensures SelectedKeys(Union(a, b)) == SelectedKeys(a) + SelectedKeys(b)
  {
    MembersUnion(a, b);
  }

  /** At one colour's key, the union's result agrees with the merge of the two results. */
  lemma UnionMergesAt(cv: Stages, img: Image, a: Flags, b: Flags, c: ColorName)
    requires Has(Union(a, b), c)
    ensures Key(c) in CountCandy(cv, img, a) + CountCandy(cv, img, b)
    ensures CountCandy(cv, img, Union(a, b))[Key(c)]
         == (CountCandy(cv, img, a) + CountCandy(cv, img, b))[Key(c)]
  {
    CountCandyLookup(cv, img, Union(a, b), c);
    CountCandyLookup(cv, img, a, c);
    CountCandyLookup(cv, img, b, c);
    HasUnion(a, b, c);
  }

  /** Counting a union of selections is merging the counts of each. */
  lemma UnionMerges(cv: Stages, img: Image, a: Flags, b: Flags)
    ensures CountCandy(cv, img, Union(a, b)) == CountCandy(cv, img, a) + CountCandy(cv, img, b)
  {
    var u, m := CountCandy(cv, img, Union(a, b)), CountCandy(cv, img, a) + CountCandy(cv, img, b);
    CountCandyKeys(cv, img, Union(a, b));
    CountCandyKeys(cv, img, a);
    CountCandyKeys(cv, img, b);
    SelectedKeysUnion(a, b);
    assert u.Keys == m.Keys;
    forall k | k in u ensures u[k] == m[k] {
      var c :| c in Members(Union(a, b)) && Key(c) == k;
      UnionMergesAt(cv, img, a, b, c);
    }
  }

  /** The selection the command-line entry point passes, all four colours united,
      reports under all four keys. */
  lemma AllColorsReported(cv: Stages, img: Image)
    ensures CountCandy(cv, img, Union(Union(Union(Bit(Green), Bit(Red)), Bit(Yellow)), Bit(Purple))).Keys
         == {"yellow", "purple", "red", "green"}
  {
    var sel := Union(Union(Union(Bit(Green), Bit(Red)), Bit(Yellow)), Bit(Purple));
    forall c ensures Has(sel, c) {
    }
    CountCandyLookup(cv, img, sel, Yellow);
    CountCandyLookup(cv, img, sel, Purple);
    CountCandyLookup(cv, img, sel, Red);
    CountCandyLookup(cv, img, sel, Green);
  }
}
