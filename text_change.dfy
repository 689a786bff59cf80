/** The kinds of text edit a note records on its undo and redo stacks, and the
    fixed table that pairs each kind with the kind that reverses it. The source
    writes that table out twice (once in `undo`, once in `redo`); here it is
    defined once, as `Inverse`. */
module TextChanges {

  datatype TextChange =
    | Insert | Delete
    | Italicize | Unitalicize
    | Underline | Ununderline
    | Bold | Unbold
    | List | Unlist
    | Color | Uncolor

  /** The twelve kinds, in the order the enum declares them. */
  const AllKinds: seq<TextChange> :=
    [Insert, Delete, Italicize, Unitalicize, Underline, Ununderline,
     Bold, Unbold, List, Unlist, Color, Uncolor]

  /** True of the kinds that remove something (`DELETE` and the `UN…` kinds). */
  predicate IsRemoval(k: TextChange) {
    k.Delete? || k.Unitalicize? || k.Ununderline? || k.Unbold? || k.Unlist? || k.Uncolor?
  }

  /** The kind logged on the opposite stack when an entry of kind `k` is undone or redone. */
  function Inverse(k: TextChange): TextChange {
    match k
    case Insert => Delete
    case Delete => Insert
    case Italicize => Unitalicize
    case Unitalicize => Italicize
    case Underline => Ununderline
    case Ununderline => Underline
    case Bold => Unbold
    case Unbold => Bold
    case List => Unlist
    case Unlist => List
    case Color => Uncolor
    case Uncolor => Color
  }

  /** The table is involutive: the inverse of the inverse is the kind itself. */
  lemma InverseInvolutive(k: TextChange)
    ensures Inverse(Inverse(k)) == k
  {
    match k
    case Insert =>
    case Delete =>
    case Italicize =>
    case Unitalicize =>
    case Underline =>
    case Ununderline =>
    case Bold =>
    case Unbold =>
    case List =>
    case Unlist =>
    case Color =>
    case Uncolor =>
  }

  /** Every kind is the inverse of exactly one kind, and never its own inverse:
      the table pairs an adding kind with a removing one. */
  lemma InverseIsPairing(a: TextChange, b: TextChange)
    ensures Inverse(a) == Inverse(b) <==> a == b
    ensures Inverse(a) != a
    ensures IsRemoval(Inverse(a)) <==> !IsRemoval(a)
  {
    InverseInvolutive(a);
    InverseInvolutive(b);
  }

  /** The table is total: `AllKinds` lists every kind exactly once, and
      `Inverse` permutes that list. */
  lemma InverseTotal(k: TextChange)
    ensures k in AllKinds && Inverse(k) in AllKinds
    ensures forall i, j :: 0 <= i < j < |AllKinds| ==> AllKinds[i] != AllKinds[j]
  {
  }
}
