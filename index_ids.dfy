/**
  The identifiers `process_category` reads from a category index, and the
  detail tasks it builds from them. A dict index gives its keys; a list
  index gives, for each element, `str(x.get('id', x.get('Id', '')))`; empty
  identifiers are dropped. One task is made per identifier and language,
  identifiers outer and languages inner.
*/
module IndexIds {

  import opened Wrappers
  import opened JsonValues
  import opened Text

  // ---------------------------------------------------------------------------
  // str() of a JSON value

  function DigitChar(d: nat): char
    requires d < 10
  {
    "0123456789"[d]
  }

  /** The decimal digits of a natural number, without leading zeros. */
  function Digits(n: nat): (r: string)
    ensures r != []
    ensures forall i | 0 <= i < |r| :: '0' <= r[i] <= '9'
    decreases n
  {
    if n < 10 then [DigitChar(n)] else Digits(n / 10) + [DigitChar(n % 10)]
  }

  /** `str(n)` for an integer. */
  function IntText(n: int): (r: string)
    ensures r != []
  {
    if n < 0 then "-" + Digits(-n) else Digits(n)
  }

  /**
    `str(v)`: a string is itself, `None`, `True` and `False` are their names,
    an integer is its decimal form; the text of a list or dict is `reprOf(v)`.
  */
  function PyStr(v: Json, reprOf: Json -> string): string {
    match v
    case Str(s) => s
    case Null => "None"
    case Bool(b) => if b then "True" else "False"
    case Num(n) => IntText(n)
    case _ => reprOf(v)
  }

  /** Only the empty string, and an empty rendering of a list or dict, give empty text. */
  lemma PyStrEmpty(v: Json, reprOf: Json -> string)
    ensures PyStr(v, reprOf) == [] <==> v == Str([]) || ((v.Arr? || v.Obj?) && reprOf(v) == [])
  {
    if v.Num? {
      assert IntText(v.n) != [];
    }
  }

  // ---------------------------------------------------------------------------
  // The identifier list

  /** The field a list element names its identifier by: `id` if present (even `null`), else `Id`, else `''`. */
  function IdField(members: seq<Member>): (v: Json)
    ensures "id" in Keys(members) ==> Member("id", v) in members
    ensures "id" !in Keys(members) && "Id" in Keys(members) ==> Member("Id", v) in members
    ensures "id" !in Keys(members) && "Id" !in Keys(members) ==> v == Str([])
  {
    var fallback := Get(members, "Id");
    match Get(members, "id")
    case Some(v) => v
    case None => if fallback.Some? then fallback.value else Str([])
  }

  /**
    `str(x.get('id', x.get('Id', '')))` for the elements of a list, in order;
    `None` when an element is not a dict, where `x.get` raises.
  */
  function ElementIds(items: seq<Json>, reprOf: Json -> string): (r: Option<seq<string>>)
    ensures r.Some? <==> forall i | 0 <= i < |items| :: items[i].Obj?
    ensures r.Some? ==> |r.value| == |items|
    ensures r.Some? ==> forall i | 0 <= i < |items| :: r.value[i] == PyStr(IdField(items[i].members), reprOf)
  {
    if forall i | 0 <= i < |items| :: items[i].Obj? then Some(ElementNames(items, reprOf)) else None
  }

  /** The identifiers before the filter: dict keys, list element ids, nothing for other shapes. */
  function RawIds(index: Json, reprOf: Json -> string): Option<seq<string>> {
    match index
    case Obj(members) => Some(Keys(members))
    case Arr(items) => ElementIds(items, reprOf)
    case _ => Some([])
  }

  /** The number of entries of an index: members of a dict, elements of a list. */
  function EntryCount(index: Json): nat {
    match index
    case Obj(members) => |members|
    case Arr(items) => |items|
    case _ => 0
  }

  /**
    `id_list` after `[i for i in id_list if i]`. `None` stands for the
    `AttributeError` a list element that is not a dict raises.
  */
  function IdList(index: Json, reprOf: Json -> string): (r: Option<seq<string>>)
    ensures r.None? <==> index.Arr? && exists i | 0 <= i < |index.items| :: !index.items[i].Obj?
    ensures r.Some? ==> |r.value| <= EntryCount(index)
    ensures r.Some? ==> forall i | 0 <= i < |r.value| :: r.value[i] != []
  {
    var raw := RawIds(index, reprOf);
    if raw.None? then None else Some(NonEmptyOnly(raw.value))
  }

  /** A dict index gives exactly its non-empty keys, in their order. */
  lemma DictIds(members: seq<Member>, reprOf: Json -> string, s: string)
    ensures IdList(Obj(members), reprOf).Some?
    ensures Subsequence(IdList(Obj(members), reprOf).value, Keys(members))
    ensures s in IdList(Obj(members), reprOf).value <==> s != [] && s in Keys(members)
  {
    NonEmptyOnlyMembers(Keys(members), s);
  }

  /** The `str` of each element's identifier field, in list order, before the filter. */
  function ElementNames(items: seq<Json>, reprOf: Json -> string): (r: seq<string>)
    requires forall i | 0 <= i < |items| :: items[i].Obj?
    ensures |r| == |items|
    ensures forall i | 0 <= i < |items| :: r[i] == PyStr(IdField(items[i].members), reprOf)
  {
    seq(|items|, i requires 0 <= i < |items| => PyStr(IdField(items[i].members), reprOf))
  }

  /**
    A list index of dicts gives exactly the non-empty `str` of each element's
    identifier field, in list order.
  */
  lemma ListIds(items: seq<Json>, reprOf: Json -> string, s: string)
    requires forall i | 0 <= i < |items| :: items[i].Obj?
    ensures IdList(Arr(items), reprOf).Some?
    ensures Subsequence(IdList(Arr(items), reprOf).value, ElementNames(items, reprOf))
    ensures s in IdList(Arr(items), reprOf).value <==> s != [] && s in ElementNames(items, reprOf)
  {
    NonEmptyOnlyMembers(ElementNames(items, reprOf), s);
  }

  /**
    `id` wins whenever it is present: an element whose `id` is `null` is
    named `"None"`, whatever its `Id` says, and that name survives the filter.
  */
  lemma NullIdIsNone(members: seq<Member>, reprOf: Json -> string)
    requires Get(members, "id") == Some(Null)
    ensures IdList(Arr([Obj(members)]), reprOf) == Some(["None"])
  {
    var items := [Obj(members)];
    var r := ElementIds(items, reprOf);
    assert items[0].Obj?;
    assert r.value[0] == PyStr(Null, reprOf);
    assert r.value == ["None"];
    NonEmptyOnlyKeepsNonEmpty(["None"]);
  }

  /** A numeric identifier is never dropped. */
  lemma NumericIdKept(items: seq<Json>, reprOf: Json -> string, k: nat)
    requires forall i | 0 <= i < |items| :: items[i].Obj?
    requires k < |items| && IdField(items[k].members).Num?
    ensures IntText(IdField(items[k].members).n) in IdList(Arr(items), reprOf).value
  {
    var name := IntText(IdField(items[k].members).n);
    ListIds(items, reprOf, name);
    assert ElementNames(items, reprOf)[k] == name;
  }

  // ---------------------------------------------------------------------------
  // Fan-out

  /** `process_single_item(category, prefix, item_id, lang, ...)`, waiting to run. */
  datatype Task = Task(itemId: string, lang: string)

  /** One identifier's tasks, one per language. */
  function Row(itemId: string, langs: seq<string>): (r: seq<Task>)
    ensures |r| == |langs|
    ensures forall j | 0 <= j < |langs| :: r[j] == Task(itemId, langs[j])
  {
    seq(|langs|, j requires 0 <= j < |langs| => Task(itemId, langs[j]))
  }

  /** All tasks of the nested loop: identifiers outer, languages inner. */
  function Tasks(ids: seq<string>, langs: seq<string>): seq<Task>
    decreases |ids|
  {
    if ids == [] then [] else Tasks(ids[..|ids| - 1], langs) + Row(Last(ids), langs)
  }

  /** There are `|ids| * |langs|` tasks. */
  lemma {:induction false} TasksLength(ids: seq<string>, langs: seq<string>)
    ensures |Tasks(ids, langs)| == |ids| * |langs|
    decreases |ids|
  {
    if ids != [] {
      var front := ids[..|ids| - 1];
      TasksLength(front, langs);
      MulSucc(|front|, |langs|);
    }
  }

  /** Task `i * |langs| + j` is identifier `i` in language `j`. */
  lemma {:induction false} TaskAt(ids: seq<string>, langs: seq<string>, i: nat, j: nat)
    requires i < |ids| && j < |langs|
    ensures i * |langs| + j < |Tasks(ids, langs)|
    ensures Tasks(ids, langs)[i * |langs| + j] == Task(ids[i], langs[j])
    decreases |ids|
  {
    var n := |langs|;
    var front := ids[..|ids| - 1];
    var k := i * n + j;
    TasksLength(ids, langs);
    TasksLength(front, langs);
    RowBound(i, |ids|, j, n);
    if i < |front| {
      TaskAt(front, langs, i, j);
      RowBound(i, |front|, j, n);
      assert front[i] == ids[i];
    } else {
      assert k == |Tasks(front, langs)| + j;
    }
  }

  /**
    `len(id_list) * len(self.langs)`, the amount added to the progress
    total: one step per task.
  */
  function TaskCount(ids: seq<string>, langs: seq<string>): (n: nat)
    ensures n == |Tasks(ids, langs)|
  {
    TasksLength(ids, langs);
    |ids| * |langs|
  }

  /** Proof helper: one more row of width `n`. */
  lemma MulSucc(m: nat, n: nat)
    ensures m * n + n == (m + 1) * n
  {
  }

  /** Row `i` of `m` rows of width `n` lies before row `m`. */
  lemma RowBound(i: nat, m: nat, j: nat, n: nat)
    requires i < m && j < n
    ensures i * n + j < m * n && m * n + n == (m + 1) * n
  {
    var d := m - i;
    assert d * n == n + (d - 1) * n;
    assert (d - 1) * n >= 0;
    assert m * n == i * n + d * n;
    assert (m + 1) * n == m * n + n;
  }

  /**
    The loops of `process_category` that queue one `process_single_item` per
    identifier and language; the count is what it adds to the progress total.
  */
  method FanOut(ids: seq<string>, langs: seq<string>) returns (tasks: seq<Task>)
    ensures tasks == Tasks(ids, langs)
    ensures |tasks| == |ids| * |langs|
  {
    tasks := [];
    for i := 0 to |ids|
      invariant tasks == Tasks(ids[..i], langs)
    {
      for j := 0 to |langs|
        invariant tasks == Tasks(ids[..i], langs) + Row(ids[i], langs[..j])
      {
        tasks := tasks + [Task(ids[i], langs[j])];
      }
      assert langs[..|langs|] == langs;
      assert ids[..i + 1][..i] == ids[..i];
    }
    assert ids[..|ids|] == ids;
    TasksLength(ids, langs);
  }
}
