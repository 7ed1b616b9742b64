// The probe catalog: the fixed, ordered list of capabilities whose support
// is detected. A capability's index in the catalog is its bit position in
// the mask, so the order is part of the mask's meaning.

module Catalog {

  /** The capability names, in catalog (and bit) order. */
  const Names: seq<string> := [
    "functionStatements",    // bit 0
    "functionExpressions",   // bit 1
    "newFunction",           // bit 2
    "boundFunctions",        // bit 3
    "functionVariables",     // bit 4
    "functionObjectMethods", // bit 5
    "accessorProperties",    // bit 6
    "shorthandMethods",      // bit 7
    "symbolKeyedMethods",    // bit 8
    "classStatements",       // bit 9
    "classExpressions",      // bit 10
    "classVariables",        // bit 11
    "classObjectMethods",    // bit 12
    "classPrototypeMethods", // bit 13
    "classStaticMethods"     // bit 14
  ]

  /** No name appears twice in the list. */
  predicate Distinct(names: seq<string>)
  {
    forall i, j | 0 <= i < j < |names| :: names[i] != names[j]
  }

  /** The catalog has 15 names and each has exactly one bit position. */
  lemma NamesDistinct()
    ensures |Names| == 15 && Distinct(Names)
  {
  }
}
