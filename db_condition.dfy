/** A db61b where-condition: two columns and a relation between their
    values, kept as a three-bit mask of the comparison outcomes it
    allows. */
module DbConditions {
  import opened Common
  import opened DbColumns

  /** The left value greater than, equal to, or less than the right. */
  const GT: bv8 := 1
  const EQ: bv8 := 2
  const LT: bv8 := 4

  /** The constructor's switch on the relation. */
  function Mask(relation: string): (r: Result<bv8>)
    ensures r.Err? ==> r.msg == "Error: invalid relation."
    ensures r.Err? <==> relation !in ["<=", "<", ">=", ">", "=", "!="]
    ensures r.Ok? ==> r.value & !(GT | EQ | LT) == 0 && r.value != 0
  {
    match relation {
      case "<=" => Ok(0 | EQ | LT)
      case "<" => Ok(0 | LT)
      case ">=" => Ok(0 | EQ | GT)
      case ">" => Ok(0 | GT)
      case "=" => Ok(0 | EQ)
      case "!=" => Ok((GT | LT) & !EQ)
      case _ => Err("Error: invalid relation.")
    }
  }

  /** test() on a compareTo result: the bit of its sign is in the mask. */
  predicate Holds(mask: bv8, comp: int)
  {
    (comp < 0 && mask & LT != 0) || (comp > 0 && mask & GT != 0) || (comp == 0 && mask & EQ != 0)
  }

  /** What each relation means on the sign of compareTo. */
  predicate Relation(relation: string, comp: int)
  {
    match relation {
      case "<" => comp < 0
      case "<=" => comp <= 0
      case ">" => comp > 0
      case ">=" => comp >= 0
      case "=" => comp == 0
      case _ => comp != 0
    }
  }

  /** The mask of a relation allows exactly the comparisons the relation
      means; "!=" is GT or LT. */
  lemma MaskMeaning(relation: string, comp: int)
    requires Mask(relation).Ok?
    ensures Holds(Mask(relation).value, comp) <==> Relation(relation, comp)
    ensures relation == "!=" ==> Mask(relation).value == GT | LT
  {
  }

  /** With v1 less than v2: <, <= and != hold, and >, >= and = do not. */
  lemma LessThanRelations(v1: string, v2: string)
    requires Less(v1, v2)
    ensures Holds(Mask("<").value, CompareTo(v1, v2)) && Holds(Mask("<=").value, CompareTo(v1, v2))
    ensures Holds(Mask("!=").value, CompareTo(v1, v2))
    ensures !Holds(Mask(">").value, CompareTo(v1, v2)) && !Holds(Mask(">=").value, CompareTo(v1, v2))
    ensures !Holds(Mask("=").value, CompareTo(v1, v2))
  {
    var c := CompareTo(v1, v2);
    MaskMeaning("<", c);
    MaskMeaning("<=", c);
    MaskMeaning("!=", c);
    MaskMeaning(">", c);
    MaskMeaning(">=", c);
    MaskMeaning("=", c);
  }

  /** Swapping the columns and mirroring the relation gives the same
      test. */
  lemma MirroredRelation(v1: string, v2: string)
    ensures Holds(Mask("<").value, CompareTo(v1, v2)) == Holds(Mask(">").value, CompareTo(v2, v1))
    ensures Holds(Mask("<=").value, CompareTo(v1, v2)) == Holds(Mask(">=").value, CompareTo(v2, v1))
    ensures Holds(Mask("!=").value, CompareTo(v1, v2)) == Holds(Mask("!=").value, CompareTo(v2, v1))
  {
    CompareToAntisymmetric(v1, v2);
  }

  class Condition {
    const col1: Column
    const col2: Column
    const mask: bv8

    constructor Init(c1: Column, m: bv8, c2: Column)
      ensures col1 == c1 && col2 == c2 && mask == m
    {
      col1 := c1;
      col2 := c2;
      mask := m;
    }

    /** new Condition(col1, relation, col2): a DBException for a relation
        that is not one of the six. */
    static method Create(c1: Column, relation: string, c2: Column) returns (r: Result<Condition>)
      ensures r.Err? <==> Mask(relation).Err?
      ensures r.Err? ==> r.msg == "Error: invalid relation."
      ensures r.Ok? ==> fresh(r.value) && r.value.col1 == c1 && r.value.col2 == c2
                        && r.value.mask == Mask(relation).value
    {
      var m := Mask(relation);
      if m.Err? {
        return Err(m.msg);
      }
      var c := new Condition.Init(c1, m.value, c2);
      r := Ok(c);
    }

    /** Both columns can give a value. */
    ghost predicate Ready()
      reads col1, col1.rowSource, col2, col2.rowSource
    {
      col1.Ready() && col2.Ready()
    }

    /** test(): the mask applied to compareTo of the two values; the first
        column's exception, then the second's, when there is no current
        row. */
    function Test(): (r: Result<bool>)
      reads col1, col1.rowSource, col2, col2.rowSource
      requires Ready()
      ensures col1.Value().Err? ==> r == Err(col1.Value().msg)
      ensures col1.Value().Ok? && col2.Value().Err? ==> r == Err(col2.Value().msg)
      ensures col1.Value().Ok? && col2.Value().Ok? ==>
                r == Ok(Holds(mask, CompareTo(col1.Value().value, col2.Value().value)))
    {
      match col1.Value() {
        case Err(e) => Err(e)
        case Ok(v1) =>
          match col2.Value() {
            case Err(e) => Err(e)
            case Ok(v2) => Ok(Holds(mask, CompareTo(v1, v2)))
          }
      }
    }
  }

  /** test(conditions): the first condition that fails, or throws, decides;
      true when every condition holds, and so for none. */
  method TestAll(conditions: seq<Condition>) returns (r: Result<bool>)
    requires forall i :: 0 <= i < |conditions| ==> conditions[i].Ready()
    ensures r == Ok(true) <==> forall i :: 0 <= i < |conditions| ==> conditions[i].Test() == Ok(true)
    ensures r != Ok(true) ==>
              exists i :: 0 <= i < |conditions| && r == conditions[i].Test()
                          && forall j :: 0 <= j < i ==> conditions[j].Test() == Ok(true)
  {
    for i := 0 to |conditions|
      invariant forall j :: 0 <= j < i ==> conditions[j].Test() == Ok(true)
    {
      var t := conditions[i].Test();
      if t != Ok(true) {
        return t;
      }
    }
    r := Ok(true);
  }
}
