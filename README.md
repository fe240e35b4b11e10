# REDES subnet calculator, modelled in Dafny

REDES is a small IPv4 subnet calculator with two front ends.

- `exe.py` holds `NetworkCalculator`. Given a host name, a host address, a dotted mask and
  an optional network address, it builds the record of derived fields:
  - network address, first usable address ("gateway") and broadcast;
  - binary renderings of the address, the mask and the network;
  - the class-based subnet count, the address range, and the total and usable host counts.
  `save_to_file` writes the records as a fixed-width text table.
- `exe_gui.py` is the Tk front end. This model covers:
  - the mask normalisation: CIDR `/n` or bare `n`, or a dotted mask;
  - the list of records behind the table (`networks_data`), with add, remove-selected and
    clear;
  - the routing view: one /30 WAN link per router, then per router the internal, inbound
    (WAN->LAN) and outbound (LAN->WAN) route rows;
  - the fixed-width text export.

The modules follow that structure:

| module | file | models |
|---|---|---|
| `Wrappers` | wrappers.dfy | `Option` and `Result`, for values that may be missing and for raised exceptions |
| `Text` | text.dfy | decimal and binary digit strings, `strip`, `split`/`join`, `ljust`, `int()` |
| `Bits`, `IPv4` | ipv4.dfy | addresses as 32-bit values, the dotted-quad text the `ipaddress` library accepts and prints, popcount, contiguous netmasks |
| `Calculator` | calculator.dfy | `NetworkCalculator` (exe.py:4-142) |
| `Report` | report.dfy | the column-width and padding logic of `save_to_file` (exe.py:224-255) and `export_txt` (exe_gui.py:589-624) |
| `Masks` | masks.dfy | `cidr_to_netmask` and `normalize_mask` (exe_gui.py:505-537) |
| `Routing` | routing.dfy | `update_routing_table` (exe_gui.py:125-188) |
| `Store` | store.dfy | `networks_data` under `add_network`, `remove_selected` and `clear_table` (exe_gui.py:348-469) |

How the source is represented:

- Addresses are `bv32` values and octets are `bv8`.
- `IPv4Network(f"{ip}/{mask}", strict=False)` becomes the datatype `Calculator.Net`:
  - the address with its host bits cleared, plus the netmask;
  - the mask may be a netmask or a hostmask, as the library allows;
  - a mask that is neither gives the error `InvalidNetmask`.
- `network_address + 1` past 255.255.255.255 gives `AddressOverflow`.
- The WAN addresses start at 100.0.0.0 and are computed with unbounded `nat` arithmetic.
- Python exceptions become `Err` values; tkinter message boxes become results and parameters.
- `NetworkTable` is a class.
  - Its `networksData` field is the Python list, which the methods reassign.
  - Its `items` field is the Treeview's row identifiers in display order. Item and record are
    paired by position, which holds while the table is unsorted.
- The routing loops are methods. Each is proved equal to a function that states the rows it
  produces, and lemmas then count and characterise those rows.

## Model

| member | source | states |
|---|---|---|
| Calculator.IpToBinary | exe.py:8-14 | the result is each dotted octet as `format(int(octet), '08b')`, joined by dots |
| Calculator.MaskToBinary | exe.py:16-18 | the mask gets the same rendering as an address |
| Calculator.BinaryTextRoundTrip | exe.py:8-14 | the rendering splits back into four groups of eight binary digits whose values are the four octets |
| Calculator.MakeNetwork | exe.py:20-23 | `IPv4Network(strict=False)` succeeds exactly when the mask is a netmask or a hostmask; the network then has its host bits cleared and contains both the address and its broadcast |
| Calculator.NetworkOf | exe.py:20-23 | the network of an address under a mask contains the address, which lies between the network and broadcast addresses |
| Calculator.CalculateNetworkIp | exe.py:20-23 | fails exactly on a mask that is neither netmask nor hostmask; otherwise gives the text of the address ANDed with the library's netmask |
| Calculator.NetworkIpOfNetmask | exe.py:20-23 | for a contiguous mask the network address is address AND mask |
| Calculator.NetworkIpIdempotent | exe.py:20-23 | the network address of a network address is itself |
| Calculator.CalculateGateway | exe.py:25-30 | network address + 1; fails on a bad mask, and with an overflow exactly when the network address is 255.255.255.255 |
| Calculator.GatewayPlacement | exe.py:25-30 | with a prefix of at most /30 the gateway is a host strictly inside the network; at /31 it is the broadcast; at /32 it overflows or lies outside the network |
| Calculator.CalculateBroadcast | exe.py:32-35 | fails exactly on a bad mask; otherwise gives the network address with every host bit set |
| Calculator.HostBitsCleared | exe.py:101-115 | gateway, broadcast and range are the same whether computed from the host address or from its network address |
| Calculator.SubnetCountOfNetmask | exe.py:37-68 | for a contiguous mask of prefix p the count is 2^(p-24) beyond /24 and 1 otherwise |
| Calculator.SubnetCountIsPowerOfTwo | exe.py:37-68 | for any mask text the count is 2^k with k at most 24 |
| Calculator.SubnetCountExamples | exe.py:37-68 | 255.255.255.192 gives 4 subnets and 255.255.252.0 gives 1 |
| Calculator.CalculateSubnetRange | exe.py:70-80 | fails exactly on a bad mask; otherwise is the network address, " - ", the broadcast address |
| Calculator.CalculateHostCount | exe.py:82-99 | total addresses times 2^(mask one-bits) is 2^32; usable hosts are the total minus two up to 30 one-bits, and 0 with 31 or 32 |
| Calculator.ProcessNetworkEntry | exe.py:101-142 | the record keeps host name, address and mask; its network address is the supplied one when given, else the calculated one |
| Calculator.EntryFields | exe.py:101-142 | every derived field of the record is what the matching calculate_* function gives for the record's network address and mask, and the three binary fields are the renderings of the address, the mask and the network address |
| Calculator.EntryInvalidMask | exe.py:101-142 | the entry fails with InvalidNetmask exactly when the mask is neither a netmask nor a hostmask |
| Calculator.EntrySucceeds | exe.py:101-142 | with a valid mask other than 255.255.255.255 the entry always succeeds |
| Calculator.EntryExample | exe.py:265 | 172.16.0.62/255.255.255.192 on network 172.16.0.0 gives gateway 172.16.0.1, broadcast 172.16.0.63, 4 subnets, 64 addresses and 62 hosts |
| IPv4.ParseAddressOfDotted | exe.py:20-23 | the library parses the text it prints back to the same octets |
| IPv4.DottedOfParseAddress | exe.py:20-23 | an accepted address text is exactly the text the library prints for its octets |
| IPv4.NetworkMask | exe.py:20-23 | the mask the library derives is always a contiguous netmask |
| IPv4.NetmaskIsPrefixQuad | exe.py:37-40 | a contiguous netmask is determined by its count of one-bits |
| Report.Keys | exe_gui.py:609 | the export's columns are the calculator's thirteen keys in order, then 'Roteador' when the record has it |
| Report.MissingKeyIsEmpty | exe_gui.py:614 | a record without 'Roteador' shows an empty cell in that column |
| Report.Longest | exe.py:238-239 | the longest cell is at least as long as every cell and as long as one of them |
| Report.LongestCell | exe.py:238-239 | scanning a column gives its longest cell length |
| Report.ColumnWidths | exe.py:236-239 | the computed widths equal the width function column by column |
| Report.WidthFits | exe.py:236-239 | a column is at least as wide as its header and each cell, and exactly as wide as the header or some cell |
| Report.LineLength | exe.py:242 | a line of fitting cells is as long as the sum of the widths plus three characters per separator |
| Report.TableAligned | exe.py:242-249 | the header line, the dashes and every record line all have the same length |
| Report.CellLeftJustified | exe.py:248 | each padded field starts with its cell, is exactly its column's width, and is filled with spaces |
| Report.WriteTable | exe.py:242-249 | the lines written are the header, a dash line as long as the header, then one line per record |
| Report.SaveToFile | exe.py:224-255 | the title, 150 '=', a blank line, the table, a blank line and 150 '=' |
| Report.ExportTxt | exe_gui.py:589-624 | nothing is written exactly when there are no records; otherwise the title, 80 '=', the time, the record count, the table over the first record's keys, and 80 '=' |
| Masks.CidrToNetmask | exe_gui.py:505-524 | the loop's result is the CIDR netmask function |
| Masks.ChunkTexts | exe_gui.py:516-519 | reading the 32-bit string eight digits at a time gives the decimal octets of the prefix mask |
| Masks.ChunkValue | exe_gui.py:515-519 | each eight-digit chunk of '1'*n + '0'*(32-n) is the matching octet of the /n netmask |
| Masks.CidrNetmaskIsPrefix | exe_gui.py:505-524 | the dotted text produced parses back to a contiguous netmask with exactly n one-bits |
| Masks.CidrNetmaskInjective | exe_gui.py:505-524 | different prefix lengths give different mask texts |
| Masks.CidrAccepts | exe_gui.py:507-524 | conversion succeeds exactly when the text after an optional '/' is an int from 0 to 32; otherwise the error names that text |
| Masks.CidrForms | exe_gui.py:505-524 | "n" and "/n" give the same netmask for every n up to 32 |
| Masks.NormalizeCidr | exe_gui.py:526-531 | a stripped "/n" or digit-only mask is converted to the /n netmask |
| Masks.NormalizeSlashed | exe_gui.py:526-531 | "/24" normalises to 255.255.255.0 |
| Masks.NormalizeBare | exe_gui.py:526-531 | "24" normalises to 255.255.255.0 |
| Masks.NormalizeRejectsLong | exe_gui.py:510-524 | "/33" is refused with the CIDR error for "33" |
| Masks.NormalizeRejectsNegative | exe_gui.py:526-537 | "-1" is neither CIDR nor an address and is refused as an invalid mask |
| Masks.NormalizedIsAddress | exe_gui.py:526-537 | every accepted mask comes out as text the address parser accepts |
| Masks.AddressPassesThrough | exe_gui.py:533-537 | a mask that strips to an address text is returned stripped and unchanged |
| Routing.Insert | exe_gui.py:133 | adding a name to a strictly sorted list keeps it strictly sorted and adds exactly that name, once |
| Routing.Routers | exe_gui.py:133 | the router names are strictly sorted and are exactly the routers of the records, with "Roteador Padrão" for a record without one |
| Routing.LessTransitive | exe_gui.py:133 | the string order the routers are sorted by is transitive |
| Routing.LessTotal | exe_gui.py:133 | any two different names are ordered one way or the other |
| Routing.NatQuad | exe_gui.py:135-146 | the octets of a WAN address have exactly its value |
| Routing.NatQuadUnique | exe_gui.py:135-146 | those octets are the only ones with that value |
| Routing.NatTextReadsBack | exe_gui.py:142-144 | the printed WAN address parses back to its value |
| Routing.WanLink.Texts | exe_gui.py:141-144 | a WAN row holds the router name and three texts: the /30 block, the router side (+2) and the ISP side (+1) |
| Routing.WanLinks | exe_gui.py:135-146 | one WAN link per router, in router order |
| Routing.WanBlockIsNetwork | exe_gui.py:141-146 | each router's block starts on a multiple of 4 and fits below 2^32 |
| Routing.WanBlocksDisjoint | exe_gui.py:135-146 | no address of one router's /30 belongs to another's |
| Routing.FirstWanLink | exe_gui.py:135-146 | the first router gets 100.0.0.0/30, router 100.0.0.2 and ISP 100.0.0.1 |
| Routing.AssignWanLinks | exe_gui.py:133-146 | the loop's links are the WAN links, and each router's ISP gateway is its block + 1 |
| Routing.GroupMembers | exe_gui.py:148-151 | a record is in a router's group exactly when it is a record with that router |
| Routing.GroupAppend | exe_gui.py:148-151 | grouping keeps record order: the group of a concatenation is the concatenation of the groups |
| Routing.GroupsPartition | exe_gui.py:148-151 | the groups of all routers together hold every record exactly once |
| Routing.GroupByRouter | exe_gui.py:148-151 | the loop gives each router its group of records in order |
| Routing.OtherRecords | exe_gui.py:170-182 | the records of all other routers number the total minus the router's own |
| Routing.IntraMembers | exe_gui.py:159-165 | an internal row exists exactly for each ordered pair of different records of the router, and only when it has two or more |
| Routing.IntraCount | exe_gui.py:159-165 | a router with n distinct records gets n*(n-1) internal rows |
| Routing.IntraTable | exe_gui.py:160-165 | the nested loop yields the internal rows |
| Routing.InFrom | exe_gui.py:173-175 | one inbound row per local record, in order |
| Routing.InboundCount | exe_gui.py:167-175 | there are (records of other routers) times (own records) inbound rows |
| Routing.InboundHops | exe_gui.py:167-175 | every inbound row's next hop is the gateway of a local record |
| Routing.InboundFrom | exe_gui.py:172-175 | the loop over one external router yields its inbound rows |
| Routing.InboundTable | exe_gui.py:170-175 | the loop over the other routers in order yields the inbound rows |
| Routing.OutTo | exe_gui.py:182-186 | one outbound row per record of the external router, in order |
| Routing.OutboundCount | exe_gui.py:177-186 | there are (own records) times (records of other routers) outbound rows |
| Routing.OutboundHops | exe_gui.py:177-186 | every outbound row's next hop is the router's ISP gateway |
| Routing.OutboundTo | exe_gui.py:183-186 | the innermost loop yields the rows to one external router |
| Routing.OutboundFrom | exe_gui.py:181-186 | the loop over the other routers yields one source record's outbound rows |
| Routing.OutboundTable | exe_gui.py:180-186 | the loop over the router's records yields its outbound rows |
| Routing.RouterRowsCount | exe_gui.py:154-186 | a router's block has one header, its internal rows, and when shown a header plus own*(total-own) rows for each of inbound and outbound |
| Routing.InternalSection | exe_gui.py:158-165 | the internal header followed by the internal rows |
| Routing.InboundSection | exe_gui.py:167-175 | the inbound header followed by the inbound rows |
| Routing.OutboundSection | exe_gui.py:177-186 | the outbound header followed by the outbound rows, through the router's ISP gateway |
| Routing.RouterTable | exe_gui.py:154-186 | one router's block is its sections, the inbound and outbound ones only when shown and with more than one router |
| Routing.RouterTables | exe_gui.py:154-186 | the loop over routers yields every router's block in router order |
| Routing.UpdateRoutingTable | exe_gui.py:125-188 | the WAN table and the routing rows are the WAN links and the routing view of the records; both are empty without records |
| Store.Calculated | exe_gui.py:362-371 | errors are never the missing-field error; a record keeps host and address, has the normalised mask and the router, and uses the given or else the calculated network address |
| Store.MissingFieldsExactly | exe_gui.py:351-360 | adding fails for missing fields exactly when host, address or mask is blank after stripping |
| Store.RefusedMaskReported | exe_gui.py:362-367 | a mask the normaliser refuses is reported with the normaliser's error |
| Store.UnselectedMembers | exe_gui.py:450-462 | a row survives removal exactly when it was present and not selected |
| Store.DeleteSelected | exe_gui.py:457-462 | deleting one selected row at its current index gives the rows without that selection |
| Store.ChosenMember | exe_gui.py:452 | an item is in the selection set exactly when it is in the selected sequence |
| Store.NetworkTable.AddNetwork | exe_gui.py:348-400 | the outcome is the new record or the error; on success the record and a fresh row are appended, on error nothing changes |
| Store.NetworkTable.Insert | exe_gui.py:391-392 | the record is appended under a fresh row identifier |
| Store.NetworkTable.DeleteRecord | exe_gui.py:460-462 | the record at an index in range is deleted, and an out-of-range index changes nothing |
| Store.NetworkTable.RemoveSelected | exe_gui.py:450-462 | warns exactly on an empty selection; when confirmed the remaining rows are the unselected ones in order, otherwise nothing changes |
| Store.NetworkTable.RemoveAll | exe_gui.py:457-462 | removing the selection item by item leaves exactly the unselected rows |
| Store.NetworkTable.RemoveItem | exe_gui.py:458-462 | removing one item's row by its current index extends the removed set by that item |
| Store.NetworkTable.ClearTable | exe_gui.py:464-469 | when confirmed the table and list are empty; otherwise nothing changes |

## Left out

- The tkinter widgets are not modelled: colours, tags, column visibility, sorting, row
  editing, the example loader and the message boxes. Confirmation answers are parameters;
  warnings and errors are results.
- File dialogs, file writes, CSV/JSON import and export and project save/load are not
  modelled. The reports are the sequences of lines that would be written.
- `datetime.now()` in `export_txt` is the already formatted parameter `generatedAt`.
- The console loop of `main`, its printed table and `test_examples` are not modelled; the
  printed table uses the same width logic as `Report.WriteTable`. One example row is proved
  as `Calculator.EntryExample`.
- Python's Unicode `isdigit` and `int()` of non-ASCII digits are not modelled. Only ASCII
  digits are, with surrounding whitespace, an optional sign and `_` between digits.
- The `ipaddress` parser is modelled for the texts used here: four dot-separated decimal
  octets, no leading zeros, each at most 255. Integer and bytes arguments are not modelled.
- Calculator.ProcessNetworkEntry requires the address, the mask and any supplied network
  address to be texts `IPv4Address` accepts.
  - In the source, `ip_to_binary` reads the host address with `int()` per part. So a
    malformed host address is not always refused when a network address is supplied.
  - Such inputs are outside the model.
- Store.Calculated rejects a host address or network address text that `IPv4Address` refuses.
  It does so with `InvalidAddress` before calculating. The source instead fails later, inside
  whichever calculation first touches the text, and reports its own message. The set of
  accepted inputs differs only for the malformed host addresses noted above.
- Routing.UpdateRoutingTable requires that every router's /30 block fits in the address
  space, which allows at most 654,311,424 routers. Past that the library raises an overflow
  error, which is not modelled. At exactly that many routers, the source's last
  `current_wan_ip += 4` also raises; the model does not.
- Store.NetworkTable.RemoveSelected assumes the display order of the items is the order of
  `networks_data`, as it is while the table is unsorted; `sort_by_column` is not modelled.
  That sort reorders only the widget's items (exe_gui.py:550-560). Afterwards the source
  deletes the record at the item's display index (exe_gui.py:459-462), which can be another
  item's record. So after a sort the "unselected rows remain" result does not hold for the
  source.
- Report.SaveToFile requires at least one record. Its only caller writes the file inside
  `if networks:` (exe.py:187), and `max()` over no records would raise.
