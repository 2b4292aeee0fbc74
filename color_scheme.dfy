/**
 * The colour-scheme codec of the settings screen: a fixed index <-> field
 * encoder/decoder for a Material colour scheme (twelve ARGB colours and
 * one `isLight` flag), and the descriptor that declares its elements.
 *
 * A structure is written as a sequence of indexed elements. A format
 * that keys each element by its declared name (JSON does) must find the
 * element's index in the descriptor; `Keyed` models that lookup.
 */
module ColorScheme {
  import opened Wrappers
  import Jvm

  /** A Kotlin `Int`; a colour travels as its ARGB `Int` (`Color.toArgb()`). */
  type Int32 = x: int | Jvm.IsInt(x)

  /** The thirteen properties of a Material `Colors` scheme the codec stores. */
  datatype Colors = Colors(
    primary: Int32,
    primaryVariant: Int32,
    secondary: Int32,
    secondaryVariant: Int32,
    background: Int32,
    surface: Int32,
    error: Int32,
    onPrimary: Int32,
    onSecondary: Int32,
    onBackground: Int32,
    onSurface: Int32,
    onError: Int32,
    isLight: bool)

  /** One element of an encoded structure: `encodeIntElement` / `encodeBooleanElement`. */
  datatype Element = IntElement(index: nat, value: Int32) | BoolElement(index: nat, flag: bool)

  datatype Kind = IntKind | BooleanKind

  /** One declared element of a descriptor: `element<Int>(name)` / `element<Boolean>(name)`. */
  datatype ElementDescriptor = ElementDescriptor(name: string, kind: Kind)

  function KindOf(e: Element): Kind {
    match e
    case IntElement(_, _) => IntKind
    case BoolElement(_, _) => BooleanKind
  }

  /** The colour the codec stores at element index `i`. */
  function ColorAt(c: Colors, i: nat): Int32
    requires i < 12
  {
    match i
    case 0 => c.primary
    case 1 => c.primaryVariant
    case 2 => c.secondary
    case 3 => c.secondaryVariant
    case 4 => c.background
    case 5 => c.surface
    case 6 => c.error
    case 7 => c.onPrimary
    case 8 => c.onSecondary
    case 9 => c.onBackground
    case 10 => c.onSurface
    case _ => c.onError
  }

  /**
   * `deserialize`: the colour at index i is read as an Int element i
   * (i < 12), and `isLight` as the Boolean element 12; a structure of
   * any other shape does not decode.
   */
  function Deserialize(es: seq<Element>): (r: Option<Colors>)
    ensures r.Some? <==>
      |es| == 13 &&
      (forall i | 0 <= i < 12 :: es[i].IntElement? && es[i].index == i) &&
      es[12].BoolElement? && es[12].index == 12
    ensures r.Some? ==>
      (forall i | 0 <= i < 12 :: ColorAt(r.value, i) == es[i].value) &&
      r.value.isLight == es[12].flag
  {
    if |es| == 13 &&
       (forall i | 0 <= i < 12 :: es[i].IntElement? && es[i].index == i) &&
       es[12].BoolElement? && es[12].index == 12
    then
      Some(Colors(
        primary := es[0].value,
        primaryVariant := es[1].value,
        secondary := es[2].value,
        secondaryVariant := es[3].value,
        background := es[4].value,
        surface := es[5].value,
        error := es[6].value,
        onPrimary := es[7].value,
        onSecondary := es[8].value,
        onBackground := es[9].value,
        onSurface := es[10].value,
        onError := es[11].value,
        isLight := es[12].flag))
    else
      None
  }

  /**
   * `serialize`: the twelve colours as Int elements 0..11, in the order
   * primary, primaryVariant, secondary, secondaryVariant, background,
   * surface, error, onPrimary, onSecondary, onBackground, onSurface,
   * onError, then `isLight` as Boolean element 12. Decoding gives the
   * scheme back.
   */
  function Serialize(c: Colors): (es: seq<Element>)
    ensures |es| == 13
    ensures forall i | 0 <= i < 12 :: es[i] == IntElement(i, ColorAt(c, i))
    ensures es[12] == BoolElement(12, c.isLight)
    ensures Deserialize(es) == Some(c)
  {
    [ IntElement(0, c.primary),
      IntElement(1, c.primaryVariant),
      IntElement(2, c.secondary),
      IntElement(3, c.secondaryVariant),
      IntElement(4, c.background),
      IntElement(5, c.surface),
      IntElement(6, c.error),
      IntElement(7, c.onPrimary),
      IntElement(8, c.onSecondary),
      IntElement(9, c.onBackground),
      IntElement(10, c.onSurface),
      IntElement(11, c.onError),
      BoolElement(12, c.isLight) ]
  }

  /** Only encodings of a scheme decode: the converse of the round trip. */
  lemma DeserializeOnlySerialized(es: seq<Element>)
    ensures Deserialize(es).Some? ==> Serialize(Deserialize(es).value) == es
  {
    if Deserialize(es).Some? {
      var c := Deserialize(es).value;
      var back := Serialize(c);
      forall i | 0 <= i < 13
        ensures back[i] == es[i]
      {
        if i < 12 {
          assert es[i] == IntElement(i, es[i].value);
        }
      }
    }
  }

  /** Decimal digits of a number, as Kotlin's `String + Int` writes them. */
  function Decimal(n: nat): (s: string)
    ensures |s| >= 1
    ensures n >= 10 ==> |s| >= 2
    ensures forall k | 0 <= k < |s| :: '0' <= s[k] <= '9'
  {
    if n < 10 then [Digit(n)] else Decimal(n / 10) + [Digit(n % 10)]
  }

  function Digit(d: nat): char
    requires d < 10
  {
    (48 + d) as char
  }

  /** Different numbers are written differently. */
  lemma {:induction false} DecimalInjective(a: nat, b: nat)
    requires Decimal(a) == Decimal(b)
    ensures a == b
  {
    var s := Decimal(a);
    if a < 10 && b < 10 {
      assert s[0] == Digit(a) && s[0] == Digit(b);
    } else if a >= 10 && b >= 10 {
      assert s[|s| - 1] == Digit(a % 10) && s[|s| - 1] == Digit(b % 10);
      assert Decimal(a / 10) == s[..|s| - 1] == Decimal(b / 10);
      DecimalInjective(a / 10, b / 10);
    }
  }

  /** The loop `for (i in 0 until n) element<Int>(color + i)`. */
  function ColorElements(n: nat): (d: seq<ElementDescriptor>)
    ensures |d| == n
    ensures forall i | 0 <= i < n :: d[i] == ElementDescriptor("color" + Decimal(i), IntKind)
  {
    if n == 0 then [] else ColorElements(n - 1) + [ElementDescriptor("color" + Decimal(n - 1), IntKind)]
  }

  const IS_LIGHT := ElementDescriptor("isLight", BooleanKind)

  /**
   * The descriptor as declared: eleven Int elements color0..color10 and
   * then `isLight`, twelve elements in all, so index 11 is the Boolean.
   */
  function Descriptor(): (d: seq<ElementDescriptor>)
    ensures |d| == 12
    ensures forall i | 0 <= i < 11 :: d[i].kind == IntKind
    ensures d[11] == IS_LIGHT
  {
    ColorElements(11) + [IS_LIGHT]
  }

  /** The descriptor the codec evidently needs: twelve colours, then `isLight` at index 12. */
  function CorrectedDescriptor(): (d: seq<ElementDescriptor>)
    ensures |d| == 13
    ensures forall i | 0 <= i < 12 :: d[i].kind == IntKind
    ensures d[12] == IS_LIGHT
  {
    ColorElements(12) + [IS_LIGHT]
  }

  predicate UniqueNames(d: seq<ElementDescriptor>) {
    forall i, j | 0 <= i < j < |d| :: d[i].name != d[j].name
  }

  /** The colour elements followed by `isLight` never share a name. */
  lemma ColorNamesUnique(n: nat)
    ensures UniqueNames(ColorElements(n) + [IS_LIGHT])
  {
    var d := ColorElements(n) + [IS_LIGHT];
    forall i, j | 0 <= i < j < |d|
      ensures d[i].name != d[j].name
    {
      assert d[i].name == "color" + Decimal(i);
      if j < n {
        if d[i].name == d[j].name {
          assert d[i].name[5..] == Decimal(i);
          assert d[j].name[5..] == Decimal(j);
          DecimalInjective(i, j);
        }
      } else {
        assert d[i].name[0] == 'c' && d[j].name[0] == 'i';
      }
    }
  }

  /** Every element of `es` is declared in `d` with its own kind. */
  predicate Conforms(d: seq<ElementDescriptor>, es: seq<Element>) {
    forall i | 0 <= i < |es| :: es[i].index < |d| && d[es[i].index].kind == KindOf(es[i])
  }

  /**
   * The name-keyed form of `es` under `d` (each element paired with the
   * declared name at its index); none when an index is undeclared.
   */
  function Keyed(d: seq<ElementDescriptor>, es: seq<Element>): (r: Option<seq<(string, Element)>>)
    ensures r.Some? <==> forall i | 0 <= i < |es| :: es[i].index < |d|
    ensures r.Some? ==> |r.value| == |es|
    ensures r.Some? ==> forall i | 0 <= i < |es| :: r.value[i] == (d[es[i].index].name, es[i])
  {
    if |es| == 0 then Some([])
    else if es[0].index >= |d| then None
    else
      match Keyed(d, es[1..])
      case None => None
      case Some(rest) => Some([(d[es[0].index].name, es[0])] + rest)
  }

  /** Whatever decodes can be keyed by the corrected descriptor. */
  lemma DecodedIsKeyed(es: seq<Element>)
    requires Deserialize(es).Some?
    ensures Keyed(CorrectedDescriptor(), es).Some?
  {
    assert forall i | 0 <= i < |es| :: es[i].index == i;
  }

  /**
   * As written, the descriptor does not describe what `serialize`
   * writes: index 11 is declared Boolean but carries an Int, and index 12
   * is not declared at all, so no name can key it.
   */
  lemma DescriptorMismatch(c: Colors)
    ensures Descriptor()[11].kind == BooleanKind && Serialize(c)[11].IntElement?
    ensures Serialize(c)[12].index == |Descriptor()|
    ensures !Conforms(Descriptor(), Serialize(c))
    ensures Keyed(Descriptor(), Serialize(c)) == None
  {
    assert Serialize(c)[12].index >= |Descriptor()|;
  }

  /** Under the corrected descriptor every element `serialize` writes is declared with its kind. */
  lemma SerializeConformsCorrected(c: Colors)
    ensures Conforms(CorrectedDescriptor(), Serialize(c))
  {
    var d := CorrectedDescriptor();
    var es := Serialize(c);
    forall i | 0 <= i < |es|
      ensures es[i].index < |d| && d[es[i].index].kind == KindOf(es[i])
    {
      if i < 12 {
        assert es[i] == IntElement(i, ColorAt(c, i));
      }
    }
  }

  /**
   * With twelve colour elements declared the codec conforms, and the
   * keyed form names the colours color0..color11 and the flag isLight,
   * all distinct.
   */
  lemma CorrectedDescriptorConforms(c: Colors)
    ensures Conforms(CorrectedDescriptor(), Serialize(c))
    ensures UniqueNames(CorrectedDescriptor())
    ensures Keyed(CorrectedDescriptor(), Serialize(c)).Some?
    ensures forall i | 0 <= i < 12 ::
      Keyed(CorrectedDescriptor(), Serialize(c)).value[i] == ("color" + Decimal(i), IntElement(i, ColorAt(c, i)))
    ensures Keyed(CorrectedDescriptor(), Serialize(c)).value[12] == ("isLight", BoolElement(12, c.isLight))
  {
    SerializeConformsCorrected(c);
    ColorNamesUnique(12);
    var d := CorrectedDescriptor();
    var es := Serialize(c);
    DecodedIsKeyed(es);
    var k := Keyed(d, es).value;
    forall i | 0 <= i < 12
      ensures k[i] == ("color" + Decimal(i), IntElement(i, ColorAt(c, i)))
    {
      assert es[i] == IntElement(i, ColorAt(c, i));
      assert d[i] == ElementDescriptor("color" + Decimal(i), IntKind);
    }
  }
}
