/** The records the GUI holds (exe_gui.py): networks_data, row for row beside the items
    of the table widget while the table is unsorted, with add_network, remove_selected
    and clear_table.
    The widget is reduced to its item identifiers in display order; dialogs become
    parameters (the confirmation) and results (the error shown). */
module Store {
  import opened Wrappers
  import opened Text
  import opened IPv4
  import opened Calculator
  import Masks

  /** The error box add_network shows instead of adding a record. */
  datatype AddError =
    | MissingFields                      // "Preencha pelo menos Nome do Host, IP e Máscara!"
    | MaskRefused(maskError: Masks.MaskError) // the ValueError of normalize_mask
    | InvalidAddress(text: string)       // IPv4Address refuses the address or network text
    | CalcFailed(calcError: CalcError)   // the calculation raised

  /** add_network's record for the texts typed into the five fields: every field
      stripped, host, address and mask required, the mask normalised, the network
      address optional (an empty one is computed), and 'Roteador' set to the router
      text, even when that is empty. */
  function NewRecord(hostText: string, ipText: string, maskText: string, networkText: string, routerText: string)
    : (r: Result<Entry, AddError>)
  {
    var host, ip, mask := Strip(hostText), Strip(ipText), Strip(maskText);
    if host == [] || ip == [] || mask == [] then Err(MissingFields)
    else Calculated(host, ip, mask, Strip(networkText), Strip(routerText))
  }

  /** The record of stripped, non-blank texts, or the first error raised on the way. A
      record keeps the host, address and router texts, holds the normalised mask, which
      is an address text, and its network address is the typed one when given and
      otherwise the one computed from address and mask. */
  function Calculated(host: string, ip: string, mask: string, network: string, router: string)
    : (r: Result<Entry, AddError>)
    ensures r.Err? ==> !r.error.MissingFields?
    ensures r.Ok? ==> && r.value.hostName == host && r.value.ip == ip && IsAddressText(ip) && r.value.router == Some(router)
                      && Masks.NormalizeMask(mask) == Ok(r.value.mask) && IsAddressText(r.value.mask)
    ensures r.Ok? && network != [] ==> r.value.networkIp == network
    ensures r.Ok? && network == [] ==> CalculateNetworkIp(ip, r.value.mask) == Ok(r.value.networkIp)
  {
    match Masks.NormalizeMask(mask)
    case Err(e) => Err(MaskRefused(e))
    case Ok(normalized) =>
      Masks.NormalizedIsAddress(mask);
      if !IsAddressText(ip) then Err(InvalidAddress(ip))
      else if network != [] && !IsAddressText(network) then Err(InvalidAddress(network))
      else
        var supplied := if network == [] then None else Some(network);
        match ProcessNetworkEntry(host, ip, normalized, supplied)
        case Err(e) => Err(CalcFailed(e))
        case Ok(result) => Ok(result.(router := Some(router)))
  }

  /** A record is refused for missing fields exactly when host, address or mask is blank. */
  lemma MissingFieldsExactly(hostText: string, ipText: string, maskText: string, networkText: string, routerText: string)
    ensures NewRecord(hostText, ipText, maskText, networkText, routerText) == Err(MissingFields)
      <==> Strip(hostText) == [] || Strip(ipText) == [] || Strip(maskText) == []
  {
  }

  /** A mask the normaliser refuses is reported with its reason, whatever the address. */
  lemma RefusedMaskReported(hostText: string, ipText: string, maskText: string, networkText: string, routerText: string)
    requires Strip(hostText) != [] && Strip(ipText) != [] && Strip(maskText) != []
    requires Masks.NormalizeMask(Strip(maskText)).Err?
    ensures NewRecord(hostText, ipText, maskText, networkText, routerText)
      == Err(MaskRefused(Masks.NormalizeMask(Strip(maskText)).error))
  {
  }

  // ---------------------------------------------------------------- removing selected rows

  /** A table row: the widget item and the record beside it. */
  type TableRow = (nat, Entry)

  predicate DistinctItems(rows: seq<TableRow>)
  {
    forall i, j :: 0 <= i < j < |rows| ==> rows[i].0 != rows[j].0
  }

  /** The rows whose item is not selected, in their order. */
  function Unselected(rows: seq<TableRow>, selected: set<nat>): seq<TableRow>
  {
    if rows == [] then []
    else
      var last := rows[|rows| - 1];
      Unselected(rows[..|rows| - 1], selected) + (if last.0 in selected then [] else [last])
  }

  /** A row survives exactly when it was there and its item was not selected. */
  lemma {:induction false} UnselectedMembers(rows: seq<TableRow>, selected: set<nat>, row: TableRow)
    ensures row in Unselected(rows, selected) <==> row in rows && row.0 !in selected
  {
    if rows != [] {
      var init := rows[..|rows| - 1];
      UnselectedMembers(init, selected, row);
      assert rows == init + [rows[|rows| - 1]];
    }
  }

  /** Selecting nothing removes nothing. */
  lemma {:induction false} NothingSelected(rows: seq<TableRow>)
    ensures Unselected(rows, {}) == rows
  {
    if rows != [] {
      NothingSelected(rows[..|rows| - 1]);
    }
  }

  /** The survivors of a table with distinct items have distinct items. */
  lemma {:induction false} UnselectedDistinct(rows: seq<TableRow>, selected: set<nat>)
    requires DistinctItems(rows)
    ensures DistinctItems(Unselected(rows, selected))
  {
    if rows != [] {
      var init := rows[..|rows| - 1];
      var last := rows[|rows| - 1];
      UnselectedDistinct(init, selected);
      var kept := Unselected(init, selected);
      forall k | 0 <= k < |kept|
        ensures kept[k].0 != last.0
      {
        UnselectedMembers(init, selected, kept[k]);
        var i :| 0 <= i < |init| && init[i] == kept[k];
      }
    }
  }

  /** An item that is not in the table: selecting it as well changes nothing. */
  lemma {:induction false} SelectAbsent(rows: seq<TableRow>, selected: set<nat>, x: nat)
    requires forall i :: 0 <= i < |rows| ==> rows[i].0 != x
    ensures Unselected(rows, selected + {x}) == Unselected(rows, selected)
  {
    if rows != [] {
      SelectAbsent(rows[..|rows| - 1], selected, x);
    }
  }

  /** Deleting the row of one more selected item from the survivors leaves the survivors
      of the larger selection: rows are removed one item at a time without disturbing the
      order of the others. */
  lemma {:induction false} DeleteSelected(rows: seq<TableRow>, selected: set<nat>, x: nat, p: nat)
    requires DistinctItems(rows) && x !in selected
    requires p < |Unselected(rows, selected)| && Unselected(rows, selected)[p].0 == x
    ensures var kept := Unselected(rows, selected);
      kept[..p] + kept[p + 1..] == Unselected(rows, selected + {x})
  {
    var init := rows[..|rows| - 1];
    var last := rows[|rows| - 1];
    var before := Unselected(init, selected);
    var kept := Unselected(rows, selected);
    if last.0 in selected {
      assert kept == before;
      DeleteSelected(init, selected, x, p);
    } else if last.0 == x {
      assert kept == before + [last];
      UnselectedDistinct(rows, selected);
      assert kept[|kept| - 1].0 == x;
      assert p == |kept| - 1;
      assert kept[..p] + kept[p + 1..] == before;
      SelectAbsent(init, selected, x);
    } else {
      assert kept == before + [last];
      assert p < |before|;
      DeleteSelected(init, selected, x, p);
      assert kept[..p] + kept[p + 1..] == before[..p] + before[p + 1..] + [last];
    }
  }

  /** The selected items as a set. */
  function Chosen(selected: seq<nat>): set<nat>
  {
    if selected == [] then {} else Chosen(selected[..|selected| - 1]) + {selected[|selected| - 1]}
  }

  /** An item is chosen exactly when it is among the selected ones. */
  lemma {:induction false} ChosenMember(selected: seq<nat>, x: nat)
    ensures x in Chosen(selected) <==> x in selected
  {
    if selected != [] {
      var init := selected[..|selected| - 1];
      ChosenMember(init, x);
      assert selected == init + [selected[|selected| - 1]];
    }
  }

  /** Deleting the same position from items and records deletes that row. */
  lemma ZipDelete(items: seq<nat>, records: seq<Entry>, index: nat)
    requires |items| == |records| && index < |items|
    ensures Zip(items[..index] + items[index + 1..], records[..index] + records[index + 1..])
      == Zip(items, records)[..index] + Zip(items, records)[index + 1..]
  {
  }

  /** Deleting one position keeps distinct values distinct and below the same bound. */
  lemma DeleteDistinct(s: seq<nat>, index: nat, bound: nat)
    requires index < |s|
    requires forall i, j :: 0 <= i < j < |s| ==> s[i] != s[j]
    requires forall i :: 0 <= i < |s| ==> s[i] < bound
    ensures var t := s[..index] + s[index + 1..];
      && (forall i, j :: 0 <= i < j < |t| ==> t[i] != t[j])
      && (forall i :: 0 <= i < |t| ==> t[i] < bound)
  {
    var t := s[..index] + s[index + 1..];
    assert forall i :: 0 <= i < |t| ==> t[i] == if i < index then s[i] else s[i + 1];
  }

  /** Deleting one position keeps every other value. */
  lemma DeleteKeeps(s: seq<nat>, index: nat, y: nat)
    requires index < |s| && y in s && y != s[index]
    ensures y in s[..index] + s[index + 1..]
  {
    var i :| 0 <= i < |s| && s[i] == y;
    if i < index {
      assert (s[..index] + s[index + 1..])[i] == y;
    } else {
      assert (s[..index] + s[index + 1..])[i - 1] == y;
    }
  }

  /** The position of an item in the widget, tree.index(item). */
  function IndexOf(items: seq<nat>, x: nat): (p: nat)
    requires x in items
    ensures p < |items| && items[p] == x
    ensures forall i :: 0 <= i < p ==> items[i] != x
  {
    if items[0] == x then 0 else 1 + IndexOf(items[1..], x)
  }

  /** Each item beside the record at the same position. */
  function Zip(items: seq<nat>, records: seq<Entry>): (rows: seq<TableRow>)
    requires |items| == |records|
    ensures |rows| == |items|
    ensures forall i :: 0 <= i < |rows| ==> rows[i] == (items[i], records[i])
  {
    seq(|items|, i requires 0 <= i < |items| => (items[i], records[i]))
  }

  // ---------------------------------------------------------------- the table

  /** The table widget's items beside networks_data. */
  class NetworkTable {
    /** The widget's items from top to bottom. */
    var items: seq<nat>
    /** networks_data: the records in the order they were added. */
    var networksData: seq<Entry>
    /** The identifier the widget gives the next inserted item. */
    var nextItem: nat

    /** Each item stands beside one record, items are distinct and all below nextItem. */
    ghost predicate Valid()
      reads this
    {
      && |items| == |networksData|
      && (forall i, j :: 0 <= i < j < |items| ==> items[i] != items[j])
      && (forall i :: 0 <= i < |items| ==> items[i] < nextItem)
    }

    /** The rows as pairs of item and record. */
    ghost function Rows(): (rows: seq<TableRow>)
      reads this
      requires |items| == |networksData|
      ensures |rows| == |items|
    {
      Zip(items, networksData)
    }

    constructor()
      ensures Valid() && items == [] && networksData == []
    {
      items, networksData, nextItem := [], [], 0;
    }

    /** add_network: the record of the typed texts is appended, or nothing changes and
        the error is returned. */
    method AddNetwork(hostText: string, ipText: string, maskText: string, networkText: string, routerText: string)
      returns (outcome: Result<Entry, AddError>)
      requires Valid()
      modifies this
      ensures Valid()
      ensures outcome == NewRecord(hostText, ipText, maskText, networkText, routerText)
      ensures outcome.Ok? ==> networksData == old(networksData) + [outcome.value] && items == old(items) + [old(nextItem)]
      ensures outcome.Err? ==> networksData == old(networksData) && items == old(items) && nextItem == old(nextItem)
    {
      var host, ip, mask := Strip(hostText), Strip(ipText), Strip(maskText);
      var network := Strip(networkText);
      var router := Strip(routerText);
      if host == [] || ip == [] || mask == [] {
        return Err(MissingFields);
      }
      var normalized := Masks.NormalizeMask(mask);
      if normalized.Err? {
        return Err(MaskRefused(normalized.error));
      }
      Masks.NormalizedIsAddress(mask);
      if !IsAddressText(ip) {
        return Err(InvalidAddress(ip));
      }
      if network != [] && !IsAddressText(network) {
        return Err(InvalidAddress(network));
      }
      var supplied := if network == [] then None else Some(network);
      var result := ProcessNetworkEntry(host, ip, normalized.value, supplied);
      if result.Err? {
        return Err(CalcFailed(result.error));
      }
      var record := result.value.(router := Some(router));
      Insert(record);
      outcome := Ok(record);
    }

    /** tree.insert at the end and networks_data.append, side by side. */
    method Insert(record: Entry)
      requires Valid()
      modifies this
      ensures Valid()
      ensures networksData == old(networksData) + [record] && items == old(items) + [old(nextItem)]
      ensures nextItem == old(nextItem) + 1
    {
      items := items + [nextItem];
      networksData := networksData + [record];
      nextItem := nextItem + 1;
    }

    /** The guarded delete: the record at index goes when 0 <= index < len(networks_data);
        otherwise nothing changes. */
    method DeleteRecord(index: int)
      modifies this
      ensures items == old(items) && nextItem == old(nextItem)
      ensures 0 <= index < |old(networksData)| ==>
        networksData == old(networksData)[..index] + old(networksData)[index + 1..]
      ensures !(0 <= index < |old(networksData)|) ==> networksData == old(networksData)
    {
      if 0 <= index < |networksData| {
        networksData := networksData[..index] + networksData[index + 1..];
      }
    }

    /** remove_selected: with a selection and the removal confirmed, every selected item and
        its record go, and the other rows stay in their order; without a selection a warning
        is shown (warned) and nothing changes. */
    method RemoveSelected(selected: seq<nat>, confirmed: bool) returns (warned: bool)
      requires Valid()
      requires forall k :: 0 <= k < |selected| ==> selected[k] in items
      requires forall k, l :: 0 <= k < l < |selected| ==> selected[k] != selected[l]
      modifies this
      ensures Valid()
      ensures warned <==> selected == []
      ensures nextItem == old(nextItem)
      ensures Rows() == if selected != [] && confirmed then Unselected(old(Rows()), Chosen(selected))
                        else old(Rows())
    {
      if selected == [] {
        return true;
      }
      warned := false;
      if confirmed {
        RemoveAll(selected);
      }
    }

    /** The loop over the selection: each item in turn leaves the widget, and its record
        leaves networks_data. */
    method RemoveAll(selected: seq<nat>)
      requires Valid()
      requires forall k :: 0 <= k < |selected| ==> selected[k] in items
      requires forall k, l :: 0 <= k < l < |selected| ==> selected[k] != selected[l]
      modifies this
      ensures Valid()
      ensures nextItem == old(nextItem)
      ensures Rows() == Unselected(old(Rows()), Chosen(selected))
    {
      ghost var rows := Rows();
      NothingSelected(rows);
      for k := 0 to |selected|
        invariant Valid() && nextItem == old(nextItem)
        invariant Rows() == Unselected(rows, Chosen(selected[..k]))
        invariant forall m :: k <= m < |selected| ==> selected[m] in items
      {
        assert selected[..k + 1][..k] == selected[..k];
        assert selected[k] !in selected[..k];
        ChosenMember(selected[..k], selected[k]);
        RemoveItem(selected[k], rows, Chosen(selected[..k]));
      }
      assert selected[..|selected|] == selected;
    }

    /** The loop body for one selected item: its position, then the row at that position. */
    method RemoveItem(item: nat, ghost rows: seq<TableRow>, ghost done: set<nat>)
      requires Valid() && DistinctItems(rows) && item in items && item !in done
      requires Rows() == Unselected(rows, done)
      modifies this
      ensures Valid() && nextItem == old(nextItem)
      ensures Rows() == Unselected(rows, done + {item})
      ensures forall y :: y in old(items) && y != item ==> y in items
    {
      var index := IndexOf(items, item);
      RemoveRow(index);
      DeleteSelected(rows, done, item, index);
      forall y | y in old(items) && y != item {
        DeleteKeeps(old(items), index, y);
      }
    }

    /** One selected row: tree.delete(item) at position index, then the guarded delete
        of the record at the same index. */
    method RemoveRow(index: nat)
      requires Valid() && index < |items|
      modifies this
      ensures Valid() && nextItem == old(nextItem)
      ensures items == old(items)[..index] + old(items)[index + 1..]
      ensures Rows() == old(Rows())[..index] + old(Rows())[index + 1..]
    {
      ghost var oldItems, oldData := items, networksData;
      items := items[..index] + items[index + 1..];
      DeleteRecord(index);
      ZipDelete(oldItems, oldData, index);
      DeleteDistinct(oldItems, index, nextItem);
    }

    /** clear_table: once confirmed, every item and every record go. */
    method ClearTable(confirmed: bool)
      requires Valid()
      modifies this
      ensures Valid() && nextItem == old(nextItem)
      ensures confirmed ==> items == [] && networksData == []
      ensures !confirmed ==> items == old(items) && networksData == old(networksData)
    {
      if confirmed {
        items := [];
        networksData := [];
      }
    }
  }
}
