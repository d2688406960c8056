/**
 * The object classes the detector is allowed to report, and the table from a
 * detector label (lower-cased) to a class.  `name_to_enum` is a static
 * dictionary with one entry per enumeration member, keyed by the member's value.
 */
module ClassEnum {

  import opened Optional

  datatype ObjectClass =
    | PaperBox
    | TrafficSign
    | Container
    | WoodenBuilding
    | Tree
    | Plastic
    | DisposableCup
  {
    /** The enumeration member's `.value`. */
    function Value(): string
    {
      match this
      case PaperBox => "paper box"
      case TrafficSign => "traffic sign"
      case Container => "container"
      case WoodenBuilding => "wooden building"
      case Tree => "tree"
      case Plastic => "plastic"
      case DisposableCup => "disposable cup"
    }
  }

  /** A detection counter: how many detections of each class a frame holds. */
  type Counter = multiset<ObjectClass>

  /** Every member, in declaration order. */
  const AllClasses: seq<ObjectClass> :=
    [PaperBox, TrafficSign, Container, WoodenBuilding, Tree, Plastic, DisposableCup]

  /** The `name_to_enum` dictionary. */
  const NameToEnum: map<string, ObjectClass> := map[
    "paper box" := PaperBox,
    "traffic sign" := TrafficSign,
    "container" := Container,
    "wooden building" := WoodenBuilding,
    "tree" := Tree,
    "plastic" := Plastic,
    "disposable cup" := DisposableCup
  ]

  /** ASCII lower-casing of one character (`str.lower` restricted to ASCII). */
  function LowerChar(ch: char): (r: char)
    ensures 'A' <= ch <= 'Z' ==> 'a' <= r <= 'z' && r as int - ch as int == 32
    ensures !('A' <= ch <= 'Z') ==> r == ch
  {
    if 'A' <= ch <= 'Z' then (ch as int + 32) as char else ch
  }

  predicate IsLower(s: string)
  {
    forall i :: 0 <= i < |s| ==> !('A' <= s[i] <= 'Z')
  }

  /** ASCII lower-casing of a label. */
  function Lower(s: string): (r: string)
    ensures |r| == |s|
    ensures forall i :: 0 <= i < |s| ==> r[i] == LowerChar(s[i])
  {
    if s == [] then [] else [LowerChar(s[0])] + Lower(s[1..])
  }

  /** Lower-casing leaves a label without upper-case letters, and is the identity on such labels. */
  lemma LowerIsLower(s: string)
    ensures IsLower(Lower(s))
    ensures IsLower(s) ==> Lower(s) == s
  {
  }

  /**
   * `name_to_enum.get(label.lower())`: the class a detector label stands for,
   * if any.
   */
  function Classify(name: string): (r: Option<ObjectClass>)
    ensures r.Some? <==> Lower(name) in NameToEnum
    ensures r.Some? ==> r.value.Value() == Lower(name)
  {
    var key := Lower(name);
    if key in NameToEnum then Some(NameToEnum[key]) else None
  }

  /** A label that is not recognised is not the value of any class. */
  lemma UnrecognisedHasNoClass(name: string)
    requires Classify(name).None?
    ensures forall c: ObjectClass :: c.Value() != Lower(name)
  {
    forall c: ObjectClass
      ensures c.Value() != Lower(name)
    {
      NameToEnumIsTheValueTable();
    }
  }

  /** Seven entries, one per member, each keyed by its member's value. */
  lemma NameToEnumIsTheValueTable()
    ensures |NameToEnum| == 7 == |AllClasses|
    ensures forall c: ObjectClass :: c in AllClasses
    ensures forall c: ObjectClass :: c.Value() in NameToEnum && NameToEnum[c.Value()] == c
    ensures forall k :: k in NameToEnum ==> NameToEnum[k].Value() == k
  {
    NameToEnumSize();
    forall c: ObjectClass
      ensures c in AllClasses && c.Value() in NameToEnum && NameToEnum[c.Value()] == c
    {
      ClassIsListedAndKeyed(c);
    }
    forall k | k in NameToEnum
      ensures NameToEnum[k].Value() == k
    {
      KeyIsItsClassValue(k);
    }
  }

  /** The dictionary has seven distinct keys. */
  lemma NameToEnumSize()
    ensures |NameToEnum| == 7
  {
    var keys := {"paper box", "traffic sign", "container", "wooden building", "tree", "plastic", "disposable cup"};
    assert NameToEnum.Keys == keys;
    assert |keys| == 7;
  }

  /** A member is listed, and the dictionary maps its value back to it. */
  lemma ClassIsListedAndKeyed(c: ObjectClass)
    ensures c in AllClasses && c.Value() in NameToEnum && NameToEnum[c.Value()] == c
  {
    match c
    case PaperBox => assert AllClasses[0] == c;
    case TrafficSign => assert AllClasses[1] == c;
    case Container => assert AllClasses[2] == c;
    case WoodenBuilding => assert AllClasses[3] == c;
    case Tree => assert AllClasses[4] == c;
    case Plastic => assert AllClasses[5] == c;
    case DisposableCup => assert AllClasses[6] == c;
  }

  /** Every key is the value of the member it maps to. */
  lemma KeyIsItsClassValue(k: string)
    requires k in NameToEnum
    ensures NameToEnum[k].Value() == k
  {
    assert k in {"paper box", "traffic sign", "container", "wooden building", "tree", "plastic", "disposable cup"};
  }

  /** Distinct names map to distinct classes, and distinct classes have distinct values. */
  lemma NameToEnumInjective()
    ensures forall k1, k2 :: k1 in NameToEnum && k2 in NameToEnum && k1 != k2 ==> NameToEnum[k1] != NameToEnum[k2]
    ensures forall c1: ObjectClass, c2: ObjectClass :: c1 != c2 ==> c1.Value() != c2.Value()
  {
    NameToEnumIsTheValueTable();
  }

  /** Every key is already lower case, so looking up a lower-cased label can reach every class. */
  lemma EveryClassReachable(c: ObjectClass)
    ensures IsLower(c.Value())
    ensures Classify(c.Value()) == Some(c)
  {
    var v := c.Value();
    assert IsLower(v) by {
      forall i | 0 <= i < |v|
        ensures !('A' <= v[i] <= 'Z')
      {
        match c
        case PaperBox => assert v == "paper box";
        case TrafficSign => assert v == "traffic sign";
        case Container => assert v == "container";
        case WoodenBuilding => assert v == "wooden building";
        case Tree => assert v == "tree";
        case Plastic => assert v == "plastic";
        case DisposableCup => assert v == "disposable cup";
      }
    }
    LowerIsLower(v);
    assert Lower(v) == v;
    NameToEnumIsTheValueTable();
  }
}
