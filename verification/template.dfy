/** Python's `str.format` with keyword arguments, over a template already cut
    into literal text and `{name}` replacement fields. */
module Template {
  import opened Strings

  datatype Option<T> = None | Some(value: T)

  datatype Piece = Text(text: string) | Field(name: string)

  /** One piece; a field with no binding is the `KeyError` that `format` raises. */
  function Render(p: Piece, bindings: map<string, string>): Option<string>
  {
    match p
    case Text(s) => Some(s)
    case Field(n) => if n in bindings then Some(bindings[n]) else None
  }

  /** `template.format(**bindings)`: the pieces rendered left to right. It
      fails, as the `KeyError` does, exactly when some field has no value. */
  function Format(template: seq<Piece>, bindings: map<string, string>): (r: Option<string>)
    ensures r.Some? <==> AllBound(template, bindings)
    decreases |template|
  {
    if |template| == 0 then Some("")
    else
      assert forall i :: 1 <= i < |template| ==> template[1..][i - 1] == template[i];
      match (Render(template[0], bindings), Format(template[1..], bindings))
      case (Some(head), Some(tail)) => Some(head + tail)
      case _ => None
  }

  /** Formatting one piece in front of a template. */
  lemma FormatCons(p: Piece, t: seq<Piece>, bindings: map<string, string>)
    ensures Format([p] + t, bindings) ==
      (if Render(p, bindings).Some? && Format(t, bindings).Some?
       then Some(Render(p, bindings).value + Format(t, bindings).value)
       else None)
  {
    assert ([p] + t)[0] == p;
    assert ([p] + t)[1..] == t;
  }

  /** Every field of the template has a value. */
  predicate AllBound(template: seq<Piece>, bindings: map<string, string>)
  {
    forall i :: 0 <= i < |template| && template[i].Field? ==> template[i].name in bindings
  }

  /** Formatting a concatenation of templates concatenates the results. */
  lemma {:induction false} FormatAppend(t1: seq<Piece>, t2: seq<Piece>, bindings: map<string, string>)
    ensures Format(t1 + t2, bindings) ==
      (if Format(t1, bindings).Some? && Format(t2, bindings).Some?
       then Some(Format(t1, bindings).value + Format(t2, bindings).value)
       else None)
    decreases |t1|
  {
    if |t1| == 0 {
      assert t1 + t2 == t2;
      if Format(t2, bindings).Some? {
        assert "" + Format(t2, bindings).value == Format(t2, bindings).value;
      }
    } else {
      assert (t1 + t2)[0] == t1[0];
      assert (t1 + t2)[1..] == t1[1..] + t2;
      FormatAppend(t1[1..], t2, bindings);
      var head := Render(t1[0], bindings);
      var rest1 := Format(t1[1..], bindings);
      var whole2 := Format(t2, bindings);
      if head.Some? && rest1.Some? && whole2.Some? {
        assert head.value + (rest1.value + whole2.value) == (head.value + rest1.value) + whole2.value;
      }
    }
  }
}
