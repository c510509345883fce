/**
 * The two helpers of src/services/utils/utils.service.ts: the status
 * transition rule `findNextStatus` and the id-list parser `convertToArray`.
 */
module UtilsService {
  import opened Wrappers
  import Models
  import opened Store

  type Status = Models.Status

  // ---------------------------------------------------------------------
  // findNextStatus
  // ---------------------------------------------------------------------

  /** The class passed as `type`: the side asking for the transition. */
  datatype Side = Vendor | User

  /**
   * What `findNextStatus` returns: the successor row, `202` (the other
   * party has to act first) or `400` (no transition from here).
   */
  datatype NextStatus = Advanced(next: Row<Status>) | Pending | Invalid {
    /** The numeric result of the source for the two non-row outcomes. */
    function Code(): int
      requires !Advanced?
    {
      if Pending? then 202 else 400
    }
  }

  /** The side that may move an entity onto a rung with this flag. */
  function SideFor(isVendorControlled: bool): Side {
    if isVendorControlled then Vendor else User
  }

  /**
   * The transition rule. The current rung is located by key (first match);
   * an unknown or last rung gives Invalid; so does a successor from the
   * order-dish ladder; otherwise the successor is returned to the side that
   * controls it and Pending to the other. An advance never skips a rung:
   * it is always to the row right after the current one.
   */
  function FindNextStatus(currStatus: Row<Status>, orderStatuses: seq<Row<Status>>, side: Side): (r: NextStatus)
    ensures r.Advanced? ==>
      var i := IndexOfId(orderStatuses, currStatus.id);
      0 <= i < |orderStatuses| - 1 && r.next == orderStatuses[i + 1] &&
      r.next.value.OrderStatus? && side == SideFor(r.next.value.isVendorControlled)
    ensures (forall row :: row in orderStatuses ==> row.id != currStatus.id) ==> r == Invalid
  {
    var currIndex := IndexOfId(orderStatuses, currStatus.id);
    if currIndex == -1 || currIndex == |orderStatuses| - 1 then Invalid
    else
      var next := orderStatuses[currIndex + 1];
      if next.value.OrderDishStatus? then Invalid
      else if side == Vendor && next.value.isVendorControlled then Advanced(next)
      else if side == User && !next.value.isVendorControlled then Advanced(next)
      else Pending
  }

  /** The rung at `i` is the first one carrying `id`. */
  ghost predicate FirstWithId(rows: seq<Row<Status>>, i: nat, id: nat) {
    i < |rows| && rows[i].id == id && forall j :: 0 <= j < i ==> rows[j].id != id
  }

  /** A current status found only at the last rung has no successor, whatever the side. */
  lemma TerminalIsInvalid(currStatus: Row<Status>, orderStatuses: seq<Row<Status>>, side: Side)
    requires |orderStatuses| > 0 && FirstWithId(orderStatuses, |orderStatuses| - 1, currStatus.id)
    ensures FindNextStatus(currStatus, orderStatuses, side) == Invalid
  {
  }

  /**
   * Below the last rung, the first rung with the current key decides: the
   * immediate successor is returned to the side that controls it, the other
   * side gets Pending, and a successor from the order-dish ladder gives Invalid.
   */
  lemma SuccessorDecides(currStatus: Row<Status>, orderStatuses: seq<Row<Status>>, i: nat, side: Side)
    requires i + 1 < |orderStatuses| && FirstWithId(orderStatuses, i, currStatus.id)
    ensures var next := orderStatuses[i + 1];
      FindNextStatus(currStatus, orderStatuses, side) ==
        if next.value.OrderDishStatus? then Invalid
        else if side == SideFor(next.value.isVendorControlled) then Advanced(next)
        else Pending
  {
  }

  /**
   * The two sides are complementary: from a non-terminal rung whose
   * successor is an order rung exactly one side advances, to that
   * successor, and the other one is told to wait.
   */
  lemma ExactlyOneSideAdvances(currStatus: Row<Status>, orderStatuses: seq<Row<Status>>, i: nat)
    requires i + 1 < |orderStatuses| && FirstWithId(orderStatuses, i, currStatus.id)
    requires orderStatuses[i + 1].value.OrderStatus?
    ensures var v := FindNextStatus(currStatus, orderStatuses, Vendor);
            var u := FindNextStatus(currStatus, orderStatuses, User);
            (v == Advanced(orderStatuses[i + 1]) && u == Pending) ||
            (u == Advanced(orderStatuses[i + 1]) && v == Pending)
  {
    SuccessorDecides(currStatus, orderStatuses, i, Vendor);
    SuccessorDecides(currStatus, orderStatuses, i, User);
  }

  /** A ladder made of order-dish rows never advances, for any rung and side. */
  lemma OrderDishLadderNeverAdvances(currStatus: Row<Status>, orderStatuses: seq<Row<Status>>, side: Side)
    requires forall row :: row in orderStatuses ==> row.value.OrderDishStatus?
    ensures FindNextStatus(currStatus, orderStatuses, side) == Invalid
  {
  }

  // ---------------------------------------------------------------------
  // convertToArray
  // ---------------------------------------------------------------------

  /** A route parameter as `convertToArray` sees it: a string or anything else. */
  datatype JsValue = JsString(s: string) | NotAString

  /**
   * What `Number(piece)` yields, observed through `Number.isFinite`: a
   * finite value, or NaN / an infinity. The conversion itself is a parameter.
   */
  datatype JsNumber = Finite(value: real) | NonFinite

  /** The characters `String.prototype.trim` strips: WhiteSpace and LineTerminator of ECMAScript. */
  predicate IsJsSpace(c: char) {
    c == '\t' || c == '\n' || c == '\U{000B}' || c == '\U{000C}' || c == '\r' || c == ' ' ||
    c == '\U{00A0}' || c == '\U{1680}' || ('\U{2000}' <= c <= '\U{200A}') ||
    c == '\U{2028}' || c == '\U{2029}' || c == '\U{202F}' || c == '\U{205F}' ||
    c == '\U{3000}' || c == '\U{FEFF}'
  }

  /** Every character of `s` is one that `trim` strips. */
  predicate IsBlank(s: string) {
    forall i :: 0 <= i < |s| ==> IsJsSpace(s[i])
  }

  /**
   * `s` without its leading white space: a suffix of `s`, everything cut
   * off is white space, and what is left does not start with white space.
   */
  function TrimStart(s: string): (r: string)
    ensures |r| <= |s| && r == s[|s| - |r|..]
    ensures forall i :: 0 <= i < |s| - |r| ==> IsJsSpace(s[i])
    ensures r == [] || !IsJsSpace(r[0])
  {
    if s != [] && IsJsSpace(s[0]) then TrimStart(s[1..]) else s
  }

  /**
   * `s` without its trailing white space: a prefix of `s`, everything cut
   * off is white space, and what is left does not end with white space.
   */
  function TrimEnd(s: string): (r: string)
    ensures |r| <= |s| && r == s[..|r|]
    ensures forall i :: |r| <= i < |s| ==> IsJsSpace(s[i])
    ensures r == [] || !IsJsSpace(r[|r| - 1])
  {
    if s != [] && IsJsSpace(s[|s| - 1]) then TrimEnd(s[..|s| - 1]) else s
  }

  /**
   * `String.prototype.trim`: the result is empty exactly when every
   * character is white space, so comparing the trimmed input with "" tests blankness.
   */
  function Trim(s: string): (r: string)
    ensures r == [] <==> IsBlank(s)
  {
    var t := TrimStart(s);
    assert t != [] ==> t[0] == s[|s| - |t|];
    TrimEnd(t)
  }

  /** `s.split(",")`: the pieces between commas, in order; there is always at least one. */
  function Split(s: string): (pieces: seq<string>)
    ensures |pieces| >= 1
    ensures forall p :: p in pieces ==> ',' !in p
  {
    if s == [] then [[]]
    else
      var rest := Split(s[1..]);
      if s[0] == ',' then [[]] + rest
      else [[s[0]] + rest[0]] + rest[1..]
  }

  /** `pieces.join(",")`. */
  function Join(pieces: seq<string>): string {
    if pieces == [] then []
    else if |pieces| == 1 then pieces[0]
    else pieces[0] + "," + Join(pieces[1..])
  }

  /** Joining the pieces with commas gives back the input. */
  lemma {:induction false} JoinSplit(s: string)
    ensures Join(Split(s)) == s
    decreases |s|
  {
    if s != [] {
      var rest := Split(s[1..]);
      JoinSplit(s[1..]);
      if s[0] == ',' {
        assert s == "," + s[1..];
      } else if |rest| == 1 {
        assert s == [s[0]] + rest[0];
      } else {
        assert Join(rest) == rest[0] + "," + Join(rest[1..]);
        assert s == [s[0]] + s[1..];
      }
    }
  }

  /** A comma-free prefix extends the first piece. */
  lemma {:induction false} SplitPrefix(p: string, t: string)
    requires ',' !in p
    ensures Split(p + t) == [p + Split(t)[0]] + Split(t)[1..]
    decreases |p|
  {
    if p != [] {
      SplitPrefix(p[1..], t);
      assert (p + t)[0] == p[0] && (p + t)[1..] == p[1..] + t;
      var rest := Split(p[1..] + t);
      assert rest[0] == p[1..] + Split(t)[0] && rest[1..] == Split(t)[1..];
      assert Split(p + t) == [[p[0]] + rest[0]] + rest[1..];
      assert [p[0]] + (p[1..] + Split(t)[0]) == p + Split(t)[0];
    } else {
      assert p + t == t && p + Split(t)[0] == Split(t)[0];
      assert Split(t) == [Split(t)[0]] + Split(t)[1..];
    }
  }

  /** A string without a comma is a single piece. */
  lemma SplitNoComma(s: string)
    requires ',' !in s
    ensures Split(s) == [s]
  {
    SplitPrefix(s, []);
    assert s + [] == s;
  }

  /** Splitting comma-free pieces joined with commas gives back the pieces. */
  lemma {:induction false} SplitJoin(pieces: seq<string>)
    requires |pieces| >= 1 && forall p :: p in pieces ==> ',' !in p
    ensures Split(Join(pieces)) == pieces
    decreases |pieces|
  {
    if |pieces| == 1 {
      SplitNoComma(pieces[0]);
    } else {
      var t := Join(pieces[1..]);
      SplitJoin(pieces[1..]);
      SplitPrefix(pieces[0], "," + t);
      assert Join(pieces) == pieces[0] + ("," + t);
      assert ("," + t)[0] == ',' && ("," + t)[1..] == t;
      assert Split("," + t) == [[]] + pieces[1..];
      assert pieces[0] + [] == pieces[0];
      assert pieces == [pieces[0]] + pieces[1..];
    }
  }

  /** Every piece converts to a finite number. */
  predicate AllFinite(pieces: seq<string>, toNumber: string -> JsNumber) {
    forall i :: 0 <= i < |pieces| ==> toNumber(pieces[i]).Finite?
  }

  /**
   * Every piece converted with `toNumber`, in order, when all of them are
   * finite; `None` as soon as one is not.
   */
  function ToNumbers(pieces: seq<string>, toNumber: string -> JsNumber): (r: Option<seq<real>>)
    ensures r.Some? <==> AllFinite(pieces, toNumber)
    ensures r.Some? ==> |r.value| == |pieces| && forall i :: 0 <= i < |pieces| ==> toNumber(pieces[i]) == Finite(r.value[i])
  {
    if pieces == [] then Some([])
    else
      var head := toNumber(pieces[0]);
      var rest := ToNumbers(pieces[1..], toNumber);
      if head.NonFinite? || rest.None? then
        assert !AllFinite(pieces, toNumber) by {
          if head.Finite? {
            var i :| 0 <= i < |pieces[1..]| && !toNumber(pieces[1..][i]).Finite?;
            assert pieces[1..][i] == pieces[i + 1];
          }
        }
        None
      else
        assert forall i :: 1 <= i < |pieces| ==> pieces[i] == pieces[1..][i - 1];
        Some([head.value] + rest.value)
  }

  /**
   * `convertToArray`: `false` (None) for a non-string or blank input;
   * otherwise the comma-separated pieces converted with `toNumber`, provided
   * every one of them is finite.
   */
  function ConvertToArray(value: JsValue, toNumber: string -> JsNumber): (r: Option<seq<real>>)
    ensures r.Some? <==> value.JsString? && !IsBlank(value.s) && AllFinite(Split(value.s), toNumber)
    ensures r.Some? ==>
      |r.value| == |Split(value.s)| &&
      forall i :: 0 <= i < |r.value| ==> toNumber(Split(value.s)[i]) == Finite(r.value[i])
  {
    match value
    case NotAString => None
    case JsString(s) =>
      if Trim(s) == "" then None
      else if ',' !in s && toNumber(s).Finite? then
        SplitNoComma(s);
        Some([toNumber(s).value])
      else
        ToNumbers(Split(s), toNumber)
  }

  /** An input without a comma whose number is finite yields exactly that number. */
  lemma ConvertSingle(s: string, toNumber: string -> JsNumber, v: real)
    requires !IsBlank(s) && ',' !in s && toNumber(s) == Finite(v)
    ensures ConvertToArray(JsString(s), toNumber) == Some([v])
  {
    SplitNoComma(s);
  }

  /**
   * The result does not depend on how the input is cut: for any comma-free
   * pieces that join to the input, the result is those pieces' numbers in
   * order when all are finite, and `false` otherwise.
   */
  lemma ConvertByPieces(pieces: seq<string>, toNumber: string -> JsNumber)
    requires |pieces| >= 1 && forall p :: p in pieces ==> ',' !in p
    requires !IsBlank(Join(pieces))
    ensures var r := ConvertToArray(JsString(Join(pieces)), toNumber);
      if AllFinite(pieces, toNumber)
      then r.Some? && |r.value| == |pieces| && forall i :: 0 <= i < |pieces| ==> Finite(r.value[i]) == toNumber(pieces[i])
      else r == None
  {
    SplitJoin(pieces);
  }
}
