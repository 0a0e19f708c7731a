/**
  The check for required fields that closes pb_decode_noinit, in terms of the input: which fields
  had their tags in it. The decoder itself only keeps the running numbers of required fields.
 */
module RequiredFields {
  import opened Wire
  import opened Descriptors
  import opened DecoderSpec

  /** The fields whose tags are met while bs is decoded */
  function Met(fields: seq<Field>, bs: seq<byte>, st: State): set<nat>
    decreases |bs|
  {
    if bs == [] then {}
    else
      match DecTag(bs)
      case Tag(wt, tag, rest) =>
        var here := var i := Lookup(fields, tag); if i.Some? then {i.value} else {};
        (match DecField(fields, wt, tag, rest, st)
         case Bad => here
         case Ok(st', rest') => here + Met(fields, rest', st'))
      case _ => {}
  }

  /** Field i is required, the k-th of the table, and one of those the bitmap has a bit for. */
  predicate Tracked(fields: seq<Field>, i: nat, k: nat) {
    i < |fields| && fields[i].htype.Required? && RequiredBefore(fields, i) == k && k < PB_MAX_REQUIRED_FIELDS
  }

  lemma FieldSeen(fields: seq<Field>, wt: nat, tag: nat, bs: seq<byte>, st: State, k: nat)
    requires fields != [] && DecField(fields, wt, tag, bs, st).Ok?
    ensures k in DecField(fields, wt, tag, bs, st).val.seen <==>
      k in st.seen || (Lookup(fields, tag).Some? && Tracked(fields, Lookup(fields, tag).value, k))
  {
    hide DecCell, SkipField, Slot, RequiredBefore;
  }

  /** The numbers collected are those of the tracked fields that were met. */
  lemma {:induction false} SeenIsMet(fields: seq<Field>, bs: seq<byte>, st: State, k: nat)
    requires fields != [] && DecFields(fields, bs, st).Ok?
    ensures k in DecFields(fields, bs, st).val.seen ==>
      k in st.seen || exists i :: i in Met(fields, bs, st) && Tracked(fields, i, k)
    ensures k in st.seen ==> k in DecFields(fields, bs, st).val.seen
    ensures forall i | i in Met(fields, bs, st) && Tracked(fields, i, k) :: k in DecFields(fields, bs, st).val.seen
    decreases |bs|
  {
    hide DecTag, DecField, Lookup, Tracked;
    if bs != [] && DecTag(bs).Tag? {
      var Tag(wt, tag, rest) := DecTag(bs);
      FieldSeen(fields, wt, tag, rest, st, k);
      var Ok(st', rest') := DecField(fields, wt, tag, rest, st);
      SeenIsMet(fields, rest', st', k);
    }
  }

  /** No two required fields have the same number. */
  lemma TrackedOnce(fields: seq<Field>, i: nat, j: nat, k: nat)
    requires Tracked(fields, i, k) && Tracked(fields, j, k)
    ensures i == j
  {
    hide RequiredBefore;
    if i < j {
      RequiredBeforeStrict(fields, i, j);
    } else if j < i {
      RequiredBeforeStrict(fields, j, i);
    }
  }

  /** Every number below the total belongs to a required field. */
  lemma {:induction false} NumberedField(fields: seq<Field>, n: nat, k: nat) returns (i: nat)
    requires n <= |fields| && k < RequiredBefore(fields, n)
    ensures i < n && fields[i].htype.Required? && RequiredBefore(fields, i) == k
  {
    if fields[n - 1].htype.Required? && k == RequiredBefore(fields, n - 1) {
      i := n - 1;
    } else {
      i := NumberedField(fields, n - 1, k);
    }
  }

  lemma TrackedBelow(fields: seq<Field>, i: nat, k: nat)
    requires Tracked(fields, i, k)
    ensures k < RequiredTracked(fields)
  {
    hide RequiredBefore;
    RequiredBeforeStrict(fields, i, |fields|);
  }

  /**
    The final check refines inclusion: input that is otherwise sound is accepted if and only if
    each of the first 64 required fields has its tag in it.
   */
  lemma RequiredCheckExact(fields: seq<Field>, bs: seq<byte>, cells: seq<Cell>)
    requires DecFields(fields, bs, Start(cells)).Ok?
    requires FixedComplete(fields, DecFields(fields, bs, Start(cells)).val)
    ensures DecMessage(fields, bs, cells).Ok? ==>
      forall i: nat | Tracked(fields, i, RequiredBefore(fields, i)) :: i in Met(fields, bs, Start(cells))
    ensures (forall i: nat | Tracked(fields, i, RequiredBefore(fields, i)) :: i in Met(fields, bs, Start(cells))) ==>
      DecMessage(fields, bs, cells).Ok?
  {
    hide DecFields, Met, RequiredBefore, Tracked, FixedComplete, RequiredTracked;
    var seen := DecFields(fields, bs, Start(cells)).val.seen;
    if DecMessage(fields, bs, cells).Ok? {
      forall i: nat | Tracked(fields, i, RequiredBefore(fields, i))
        ensures i in Met(fields, bs, Start(cells))
      {
        CheckedWasMet(fields, bs, cells, i);
      }
    }
    if forall i: nat | Tracked(fields, i, RequiredBefore(fields, i)) :: i in Met(fields, bs, Start(cells)) {
      forall k: nat | k < RequiredTracked(fields)
        ensures k in seen
      {
        MetWasSeen(fields, bs, cells, k);
      }
    }
  }

  lemma CheckedWasMet(fields: seq<Field>, bs: seq<byte>, cells: seq<Cell>, i: nat)
    requires DecFields(fields, bs, Start(cells)).Ok?
    requires RequiredPresent(fields, DecFields(fields, bs, Start(cells)).val.seen)
    requires Tracked(fields, i, RequiredBefore(fields, i))
    ensures i in Met(fields, bs, Start(cells))
  {
    hide DecFields, Met, RequiredBefore, RequiredTracked;
    var k := RequiredBefore(fields, i);
    TrackedBelow(fields, i, k);
    SeenIsMet(fields, bs, Start(cells), k);
    var j: nat :| j in Met(fields, bs, Start(cells)) && Tracked(fields, j, k);
    TrackedOnce(fields, i, j, k);
  }

  lemma MetWasSeen(fields: seq<Field>, bs: seq<byte>, cells: seq<Cell>, k: nat)
    requires DecFields(fields, bs, Start(cells)).Ok? && k < RequiredTracked(fields)
    requires forall i: nat | Tracked(fields, i, RequiredBefore(fields, i)) :: i in Met(fields, bs, Start(cells))
    ensures k in DecFields(fields, bs, Start(cells)).val.seen
  {
    hide DecFields, Met;
    var i := NumberedField(fields, |fields|, k);
    assert Tracked(fields, i, RequiredBefore(fields, i));
    SeenIsMet(fields, bs, Start(cells), k);
  }

  // ---- The same, counted in the table ----

  /** The required fields among the first n */
  function RequiredAmong(fields: seq<Field>, n: nat): set<nat> {
    set i: nat | i < n && i < |fields| && fields[i].htype == Required
  }

  lemma {:induction false} RequiredCounted(fields: seq<Field>, n: nat)
    requires n <= |fields|
    ensures RequiredBefore(fields, n) == |RequiredAmong(fields, n)|
  {
    if n > 0 {
      RequiredCounted(fields, n - 1);
      var before := RequiredAmong(fields, n - 1);
      assert RequiredAmong(fields, n) == before + if fields[n - 1].htype == Required then {n - 1} else {};
    }
  }

  /**
    Input that is otherwise sound is accepted if and only if every required field with fewer than 64
    required fields before it in the table has its tag in the input.
   */
  lemma First64Required(fields: seq<Field>, bs: seq<byte>, cells: seq<Cell>)
    requires DecFields(fields, bs, Start(cells)).Ok?
    requires FixedComplete(fields, DecFields(fields, bs, Start(cells)).val)
    ensures DecMessage(fields, bs, cells).Ok? ==> RequiredMet(fields, bs, cells, 64)
    ensures RequiredMet(fields, bs, cells, 64) ==> DecMessage(fields, bs, cells).Ok?
  {
    hide DecFields, Met, RequiredBefore, FixedComplete, DecMessage, RequiredAmong;
    RequiredCheckExact(fields, bs, cells);
    forall i | 0 <= i < |fields|
      ensures Tracked(fields, i, RequiredBefore(fields, i)) <==>
        fields[i].htype == Required && |RequiredAmong(fields, i)| < 64
    {
      RequiredCounted(fields, i);
    }
  }

  /** Every required field with fewer than limit required fields before it is met. */
  ghost predicate RequiredMet(fields: seq<Field>, bs: seq<byte>, cells: seq<Cell>, limit: nat) {
    forall i | 0 <= i < |fields| && fields[i].htype == Required && |RequiredAmong(fields, i)| < limit ::
      i in Met(fields, bs, Start(cells))
  }

  /** With at most 64 required fields in the table, if and only if all of them have. */
  lemma AllRequired(fields: seq<Field>, bs: seq<byte>, cells: seq<Cell>)
    requires |RequiredAmong(fields, |fields|)| <= 64
    requires DecFields(fields, bs, Start(cells)).Ok?
    requires FixedComplete(fields, DecFields(fields, bs, Start(cells)).val)
    ensures DecMessage(fields, bs, cells).Ok? ==>
      forall i | 0 <= i < |fields| && fields[i].htype == Required :: i in Met(fields, bs, Start(cells))
    ensures (forall i | 0 <= i < |fields| && fields[i].htype == Required :: i in Met(fields, bs, Start(cells))) ==>
      DecMessage(fields, bs, cells).Ok?
  {
    hide DecFields, Met, FixedComplete, DecMessage, RequiredAmong, RequiredBefore;
    First64Required(fields, bs, cells);
    RequiredCounted(fields, |fields|);
    forall i | 0 <= i < |fields| && fields[i].htype == Required
      ensures |RequiredAmong(fields, i)| < 64
    {
      RequiredCounted(fields, i);
      RequiredBeforeStrict(fields, i, |fields|);
    }
  }
}
