/**
 * Element-wise projections over a vector of parsed titers: their numeric
 * values, their type codes and their log values. Each projection builds an
 * output vector of the input's length and fills it index by index.
 */
module TiterVectors {
  import opened Wrappers

  /**
   * A parsed titer: its integer type code and its numeric magnitude. Type
   * code 0 marks a missing titer; the meaning of the other codes belongs to
   * the titer class, which is not part of this model.
   */
  datatype Titer = Titer(typeCode: nat, numeric: nat)

  /** The type code of a missing titer. */
  const MissingType: nat := 0

  /**
   * The numeric value of every titer: absent (NaN in the source) exactly
   * for missing titers, the titer's magnitude for all others.
   */
  method NumericTiters(titers: seq<Titer>) returns (values: seq<Option<nat>>)
    ensures |values| == |titers|
    ensures forall i :: 0 <= i < |titers| ==> (values[i].None? <==> titers[i].typeCode == MissingType)
    ensures forall i :: 0 <= i < |titers| && titers[i].typeCode != MissingType ==> values[i] == Some(titers[i].numeric)
  {
    values := [];
    var i := 0;
    while i < |titers|
      invariant 0 <= i <= |titers|
      invariant |values| == i
      invariant forall j :: 0 <= j < i ==> (values[j].None? <==> titers[j].typeCode == MissingType)
      invariant forall j :: 0 <= j < i && titers[j].typeCode != MissingType ==> values[j] == Some(titers[j].numeric)
    {
      if titers[i].typeCode == MissingType {
        values := values + [None];
      } else {
        values := values + [Some(titers[i].numeric)];
      }
      i := i + 1;
    }
  }

  /**
   * The log value of every titer. The titer's own log conversion is not
   * part of this model, so it is a parameter whose result type is left
   * open (it may include NaN): the result is its value at each index and
   * nothing else.
   */
  method LogTiters<R>(titers: seq<Titer>, logTiter: Titer -> R) returns (logs: seq<R>)
    ensures |logs| == |titers|
    ensures forall i :: 0 <= i < |titers| ==> logs[i] == logTiter(titers[i])
  {
    logs := [];
    var i := 0;
    while i < |titers|
      invariant 0 <= i <= |titers|
      invariant |logs| == i
      invariant forall j :: 0 <= j < i ==> logs[j] == logTiter(titers[j])
    {
      logs := logs + [logTiter(titers[i])];
      i := i + 1;
    }
  }

  /** The type code of every titer, in order. */
  method TiterTypesInt(titers: seq<Titer>) returns (types: seq<nat>)
    ensures |types| == |titers|
    ensures forall i :: 0 <= i < |titers| ==> types[i] == titers[i].typeCode
  {
    types := [];
    var i := 0;
    while i < |titers|
      invariant 0 <= i <= |titers|
      invariant |types| == i
      invariant forall j :: 0 <= j < i ==> types[j] == titers[j].typeCode
    {
      types := types + [titers[i].typeCode];
      i := i + 1;
    }
  }
}
