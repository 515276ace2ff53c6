/** Plural categories (src/Rule.php), the numbers the plural rules classify
    and the two list styles. */
module Rules {

  /** The closed set of plural categories. */
  datatype Rule = None | Zero | One | Two | Few | Many | Other

  /** `Rule::getName()`: the enum's backing string, the key of a plural map. */
  function Name(r: Rule): (name: string)
    ensures 3 <= |name| <= 5
    ensures forall i :: 0 <= i < |name| ==> 'a' <= name[i] <= 'z'
  {
    match r
    case None => "none"
    case Zero => "zero"
    case One => "one"
    case Two => "two"
    case Few => "few"
    case Many => "many"
    case Other => "other"
  }

  /** Distinct categories have distinct names, so a plural map entry selects
      exactly one category. */
  lemma NameInjective(a: Rule, b: Rule)
    requires Name(a) == Name(b)
    ensures a == b
  {
    match a
    case None => assert Name(b)[0] == 'n';
    case Zero => assert Name(b)[0] == 'z';
    case One => assert Name(b)[0] == 'o' && Name(b)[1] == 'n';
    case Two => assert Name(b)[0] == 't';
    case Few => assert Name(b)[0] == 'f';
    case Many => assert Name(b)[0] == 'm';
    case Other => assert Name(b)[0] == 'o' && Name(b)[1] == 't';
  }

  /** A PHP `int|float` argument: `I` for an int, `F` for a float. */
  datatype Num = I(i: int) | F(f: real) {
    /** `$value === 0 || $value === 0.0` */
    predicate IsZero() {
      this == I(0) || this == F(0.0)
    }
    function AsReal(): real {
      match this
      case I(n) => n as real
      case F(x) => x
    }
  }

  /** `ListStyle::AND` and `ListStyle::OR` */
  datatype ListStyle = And | Or
}
