/**
 * The two enumerations every component shares (a document's split and its
 * topic class) and the printer that turns a class into its name.
 */
module Defs {

  /** Whether a document belongs to the training set, the test set or neither. */
  datatype DocType = Train | Test | Other

  /** The topic class of a document. */
  datatype DocClass = Earn | Acq | MoneyFx | Grain | Crude | Other

  /** The name the output operator prints for a class. */
  function ClassName(c: DocClass): (name: string)
    ensures |name| >= 3
    ensures forall i :: 0 <= i < |name| ==> name[i] == '-' || 'a' <= name[i] <= 'z'
  {
    match c
    case Earn => "earn"
    case Acq => "acq"
    case MoneyFx => "money-fx"
    case Grain => "grain"
    case Crude => "crude"
    case Other => "other"
  }

  /** Distinct classes print as distinct names. */
  lemma {:induction false} ClassNameInjective(a: DocClass, b: DocClass)
    ensures ClassName(a) == ClassName(b) <==> a == b
  {
  }
}
