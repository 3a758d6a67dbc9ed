/**
 * Label layouts and the choice of the default one (`set_default_label`, the
 * same in main.py and app.py): every layout loses its default flag, then the
 * chosen one gets it.
 */
module LabelLayouts {

  /** One row of `label_layouts`; the layout drawing data is not modelled. */
  datatype Layout = Layout(id: int, name: string, isDefault: int)

  /** `UPDATE ... SET is_default = 0` for all rows. */
  function ClearDefaults(ls: seq<Layout>): (r: seq<Layout>)
    ensures |r| == |ls|
    ensures forall i :: 0 <= i < |ls| ==> r[i] == ls[i].(isDefault := 0)
  {
    seq(|ls|, i requires 0 <= i < |ls| => ls[i].(isDefault := 0))
  }

  /** `UPDATE ... SET is_default = 1 WHERE id = ?`. */
  function MarkDefault(ls: seq<Layout>, id: int): (r: seq<Layout>)
    ensures |r| == |ls|
    ensures forall i :: 0 <= i < |ls| ==> r[i] == if ls[i].id == id then ls[i].(isDefault := 1) else ls[i]
  {
    seq(|ls|, i requires 0 <= i < |ls| => if ls[i].id == id then ls[i].(isDefault := 1) else ls[i])
  }

  /** `set_default_label(id)`. */
  function SetDefaultLabel(ls: seq<Layout>, id: int): seq<Layout> {
    MarkDefault(ClearDefaults(ls), id)
  }

  /** The layouts flagged as default. */
  function Defaults(ls: seq<Layout>): set<int> {
    set i | 0 <= i < |ls| && ls[i].isDefault == 1 :: ls[i].id
  }

  /**
   * Afterwards a layout is the default exactly when it has the given id; names,
   * ids and order are untouched. An id no layout has leaves none as default.
   */
  lemma SetDefaultLabelSpec(ls: seq<Layout>, id: int)
    ensures var r := SetDefaultLabel(ls, id);
      |r| == |ls|
      && (forall i :: 0 <= i < |ls| ==> r[i].id == ls[i].id && r[i].name == ls[i].name)
      && (forall i :: 0 <= i < |ls| ==> (r[i].isDefault == 1 <==> ls[i].id == id))
      && (forall i :: 0 <= i < |ls| ==> r[i].isDefault == 0 || r[i].isDefault == 1)
  {
  }

  /** At most one id carries the default flag afterwards, and it is the chosen one when that exists. */
  lemma SingleDefault(ls: seq<Layout>, id: int)
    ensures Defaults(SetDefaultLabel(ls, id)) == if exists i :: 0 <= i < |ls| && ls[i].id == id then {id} else {}
  {
    var r := SetDefaultLabel(ls, id);
    SetDefaultLabelSpec(ls, id);
    if exists i :: 0 <= i < |ls| && ls[i].id == id {
      var i :| 0 <= i < |ls| && ls[i].id == id;
      assert r[i].isDefault == 1 && r[i].id == id;
    }
  }

  /** Choosing the same default twice is the same as choosing it once. */
  lemma SetDefaultLabelIdempotent(ls: seq<Layout>, id: int)
    ensures SetDefaultLabel(SetDefaultLabel(ls, id), id) == SetDefaultLabel(ls, id)
  {
  }
}
