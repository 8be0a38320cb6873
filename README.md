# Check Point objects to Palo Alto `set` commands

This project models the converter in `objects_checkpoint_to_palo.py`. The converter reads a Check
Point object export as a table with the columns `Name`, `IPv4`, `Mask` and `Port`. From it, it
writes Palo Alto configuration lines to three output files and three review files:

- `set address <name> ip-netmask <address>/<len>` for hosts and networks;
- `set service <name> protocol tcp port <port>` for services.

The Dafny modules follow the program's parts:

| module | file | models |
|---|---|---|
| `Frame` | `frame.dfy` | The table as rows carrying their pandas label. It covers `filter_nan`, a loop that builds a flag list and then indexes the table with it, the three selectors built on it, and the constructor that runs them. |
| `Names` | `names.dfy` | `replace_whitespace`, which is Python's `str.strip()` with its whitespace set, followed by `replace(" ", "_")`. |
| `Masks` | `masks.dfy` | The 25-entry `subnet_masks` table and `convert_cidr`. Both are checked against a reference definition of the contiguous netmask for each prefix length from 8 to 32. |
| `Decimal` | `decimal.dfy` | The decimal rendering of the row label in error lines, and reading that label back. |
| `Conversion` | `conversion.dfy` | The three converters, written as methods with loops. Each is proved equal to a function of its rows and of the files on disk before it runs. |
| `Wrappers` | `wrappers.dfy` | `Option`. |

### Files on disk

The six files are a value of type `map<Channel, File>`. A `File` records two things:

- whether it starts with its banner, that is, whether it was last opened with mode `'w'`;
- the texts appended after the banner, one per `f.write`.

Opening a file with `'w'` and writing its banner is `Truncate`. One `open(…, 'a')` followed by one
`f.write` is `Append`.

### Unknown masks

`convert_cidr` raises `KeyError` on a mask that is not in the table. In the model, that is the
`unknownMask` field of the `Outcome` that `NetworkConversion` returns. The files in that outcome
hold what was written before the failing row. A whole run stops there, so the service converter
never runs.

### Behaviour worth noting

- Only `''` and NaN are blank in `filter_nan`. A cell reading `N/A` is blank only because
  `pd.read_csv`, with its default `na_values`, has already turned it into NaN; that step is part of
  reading the CSV, which is not modelled.
- When `filter_nan` gets a frame without rows, its flag list is empty and `data[[]]` selects no
  columns. The next column access raises `KeyError`. So the constructor fails, and no file is
  written, when no row has an IPv4 value (`Frame.LoadObjects`).
- Every service gets protocol `tcp`.
- Host names are written as they are.
- Runs of spaces inside a name become the same number of underscores. They are not collapsed.
- A network row whose address is too long is appended to the **host** review file
  (`./review/host_object_errors.txt`, lines 147-149). The network review file gets only its
  banner. `NetworkRowRouted` and `NetworkRerunRepeatsErrors` state this behaviour.
  - In a normal run, the host converter has just truncated the host review file, so that file ends
    up with the host errors followed by the network errors.
  - Running the network converter on its own twice repeats its error lines.
- The mask lookup comes before the length check. So a long address with an unknown mask raises
  instead of being diverted (`LookupBeforeLengthCheck`).

## Model

| member | source | states |
|---|---|---|
| Frame.FilterNan | objects_checkpoint_to_palo.py:81-108 | The loop's flag list keeps a row exactly when its cell is blank (`''` or NaN) if `want_nan`, and exactly when it is not blank otherwise. For a non-empty input the result keeps its columns and holds `Filtered`, the rows passing that test, in table order; for an empty input it is the frame without columns that `data[[]]` gives. |
| Frame.SelectByKeepFlags | objects_checkpoint_to_palo.py:95-108 | Boolean indexing with the flags `filter_nan` builds selects exactly the rows `Filtered` keeps. |
| Frame.FilteredMembers | objects_checkpoint_to_palo.py:96-108 | A row is in the filtered table iff it is in the input and passes the blank test for `want_nan`. |
| Frame.FilterPartition | objects_checkpoint_to_palo.py:96-108 | As multisets, the `want_nan=False` and `want_nan=True` filters together are exactly the input rows. |
| Frame.FilteredAppend | objects_checkpoint_to_palo.py:108 | Filtering distributes over concatenation, so the filter never reorders rows. |
| Frame.FilteredIncreasing | objects_checkpoint_to_palo.py:108 | Filtering keeps row labels strictly increasing (pandas keeps the labels and their order). |
| Frame.HostObjects | objects_checkpoint_to_palo.py:55-58 | A row is a host iff it is in the table with a non-blank IPv4 and a blank Mask. |
| Frame.NetworkObjects | objects_checkpoint_to_palo.py:60-63 | A row is a network iff it is in the table with a non-blank IPv4 and a non-blank Mask. |
| Frame.PortObjects | objects_checkpoint_to_palo.py:65-67 | A row is a service iff it is in the table with a non-blank Port. |
| Frame.GetHostObjects | objects_checkpoint_to_palo.py:55-58 | The selector raises `KeyError` exactly when the IPv4 filter leaves no row. Otherwise the two `filter_nan` calls give `HostObjects`, and every host has a non-empty IPv4 value. |
| Frame.GetNetworkObjects | objects_checkpoint_to_palo.py:60-63 | The selector raises `KeyError` exactly when the IPv4 filter leaves no row. Otherwise the two `filter_nan` calls give `NetworkObjects`, and every network has an IPv4 and a Mask value. |
| Frame.GetPortObjects | objects_checkpoint_to_palo.py:65-67 | The selector raises `KeyError` exactly when the table has no rows. Otherwise the `filter_nan` call gives `PortObjects`, and every service has a Port value. |
| Frame.NoAddressRowsIffEmptyFilter | objects_checkpoint_to_palo.py:56 | The IPv4 filter leaves no row iff no row of the table has an IPv4 value. |
| Frame.LoadObjects | objects_checkpoint_to_palo.py:49-53 | The constructor fails iff no row has an IPv4 value. Otherwise it stores exactly the host, network and service selections. |
| Frame.HostsAndNetworksSplitAddressRows | objects_checkpoint_to_palo.py:55-63 | Hosts and networks are disjoint. Together they are the rows with an IPv4 value. A row with a blank IPv4 is in neither. |
| Frame.SelectionsKeepLabels | objects_checkpoint_to_palo.py:55-67 | In a table with default labels, each selected row's label is its position in the table, and each selection lists rows in table order. |
| Names.LeadingSpacesMaximal | objects_checkpoint_to_palo.py:79 | The leading run counted for `strip` is all whitespace and is maximal. |
| Names.TrailingSpacesMaximal | objects_checkpoint_to_palo.py:79 | The trailing run counted for `strip` is all whitespace and is maximal. |
| Names.Strip | objects_checkpoint_to_palo.py:79 | `strip()` never lengthens the text. |
| Names.StripRemovesMaximalRuns | objects_checkpoint_to_palo.py:79 | `strip()` is a contiguous slice of the text that neither starts nor ends with whitespace, and only whitespace was cut from either end. |
| Names.ReplaceSpaces | objects_checkpoint_to_palo.py:79 | `replace(" ", "_")` keeps the length. |
| Names.ReplaceSpacesPointwise | objects_checkpoint_to_palo.py:79 | `replace(" ", "_")` turns each space into `_` and leaves every other character in place. |
| Names.ReplaceWhitespaceShape | objects_checkpoint_to_palo.py:69-79 | A normalised name has no space and no whitespace at either end. It has the length of the stripped text and differs from it only where that has a space. |
| Names.ReplaceWhitespaceIdempotent | objects_checkpoint_to_palo.py:69-79 | Normalising a normalised name changes nothing. |
| Names.ReplaceWhitespaceKeepsRuns | objects_checkpoint_to_palo.py:79 | `k` spaces between two words become `k` underscores, not one. |
| Decimal.NatToStringCanonical | objects_checkpoint_to_palo.py:128 | The label written by `f'{index}'` is a non-empty digit string with a leading zero only for 0. |
| Decimal.DigitsValueOfNatToString | objects_checkpoint_to_palo.py:128 | Reading the rendered label back gives the label. |
| Decimal.NatToStringInjective | objects_checkpoint_to_palo.py:128 | Distinct labels render differently. |
| Decimal.LeadingDigitsOfNumeral | objects_checkpoint_to_palo.py:128 | A numeral followed by `: ` is recovered exactly as the leading digits of the line. |
| Masks.OnesOctetValue | objects_checkpoint_to_palo.py:19-45 | An octet with `b` leading one-bits has the value `256 - 2^(8-b)`. |
| Masks.OctetTextIsNumeral | objects_checkpoint_to_palo.py:19-45 | The octet texts used in the table are the decimal numerals of those values. |
| Masks.TableEntry | objects_checkpoint_to_palo.py:20-44 | For each `n` from 8 to 32, the mask with `n` leading ones is a key of `subnet_masks` and maps to `"/n"`. |
| Masks.EveryPrefixLengthInTable | objects_checkpoint_to_palo.py:19-45 | The same holds for all `n` from 8 to 32 at once. |
| Masks.KeysArePrefixMasks | objects_checkpoint_to_palo.py:19-45 | Every key of `subnet_masks` is a contiguous netmask of prefix length 8 to 32. |
| Masks.TableIsPrefixMasks | objects_checkpoint_to_palo.py:19-45 | The keys of `subnet_masks` are exactly the 25 contiguous netmasks of prefix length 8 to 32. |
| Masks.ConvertCidr | objects_checkpoint_to_palo.py:110-111 | `convert_cidr` succeeds iff the mask is contiguous with prefix length 8 to 32, and then it gives `"/" + n`. Any other mask raises `KeyError`. |
| Conversion.Append | objects_checkpoint_to_palo.py:127-132 | Opening a file with `'a'` and writing a text adds that text after the file's lines, keeps its banner and touches no other file. |
| Conversion.LinesAppend | objects_checkpoint_to_palo.py:126-132 | A row's line extends exactly one of the directive and error lists. |
| Conversion.LinesSplit | objects_checkpoint_to_palo.py:126-132 | Every line lands in exactly one list: the counts add up, and each list holds exactly the lines of its kind. |
| Conversion.OutputAndReviewDisjoint | objects_checkpoint_to_palo.py:126-132 | When directives and error lines start differently, no text is in both the output and the review list. |
| Conversion.ErrorLineStartsWithDigit | objects_checkpoint_to_palo.py:128 | An error line starts with a digit, so it is never a `set` directive. |
| Conversion.ErrorLineLabel | objects_checkpoint_to_palo.py:128 | The leading digits of an error line read back as the row's label. |
| Conversion.AddressDirectiveName | objects_checkpoint_to_palo.py:132 | The name field of `set address` is the given name when that has no space. |
| Conversion.ServiceDirectiveName | objects_checkpoint_to_palo.py:170 | The name field of `set service` is the given name when that has no space. |
| Conversion.HostLines | objects_checkpoint_to_palo.py:120-132 | There is one line per host row, in row order. The line is an error line if the address has more than 20 characters, and otherwise `set address <name> ip-netmask <address>/32`. |
| Conversion.HostConversionStep | objects_checkpoint_to_palo.py:126-132 | One more host row appends its line to exactly one of the two host files. |
| Conversion.ConvertHostObjects | objects_checkpoint_to_palo.py:113-132 | The converter leaves both host files truncated to their banners, followed by the directives and the error lines in row order. Every other file is unchanged. |
| Conversion.HostLinesDistinguishable | objects_checkpoint_to_palo.py:128-132 | Host directives start with `s` and host error lines with a digit. |
| Conversion.HostRowRouted | objects_checkpoint_to_palo.py:120-132 | The two host files hold one line per host after their banners. A host's directive is in the output file and not the review file when its address has at most 20 characters. Otherwise its error line is in the review file and not the output file. |
| Conversion.HostErrorNamesRow | objects_checkpoint_to_palo.py:120-128 | The label at the head of a host error line is the position of the host's row in the table. |
| Conversion.HostNameNotNormalised | objects_checkpoint_to_palo.py:121-132 | Host names are not normalised: a host row whose name has a space and whose address is short enough yields a directive whose name field is only the name's first word. |
| Conversion.HostOutputContents | objects_checkpoint_to_palo.py:114-132 | The host output file is its banner followed by the directives of the short-address hosts, in row order. |
| Conversion.KnownMasks | objects_checkpoint_to_palo.py:141-144 | The rows before the first unknown mask all have known masks, and the next row's mask is unknown. |
| Conversion.NetworkLines | objects_checkpoint_to_palo.py:141-153 | There is one line per network row, with the normalised name. The line is an error line if the address has more than 20 characters, and otherwise a directive with the row's CIDR suffix. |
| Conversion.NetworkLinesSnoc | objects_checkpoint_to_palo.py:141-153 | One more convertible row extends the network lines by that row's line. |
| Conversion.RouteNetworkLinesSnoc | objects_checkpoint_to_palo.py:147-153 | One more network line is appended to the network output file or to the host review file. |
| Conversion.AppendAllSnoc | objects_checkpoint_to_palo.py:148-149 | Appending texts one at a time is appending them all. |
| Conversion.NetworkFilesStep | objects_checkpoint_to_palo.py:141-153 | One more network row with a known mask appends one line. A too-long address goes to the host review file; otherwise the directive goes to the network output file. |
| Conversion.KnownMasksAt | objects_checkpoint_to_palo.py:141-144 | If the first `k` masks are known and the next is not, the run stops after `k` rows. |
| Conversion.ConvertNetworkObjects | objects_checkpoint_to_palo.py:134-153 | The converter truncates both network files. It converts the rows before the first unknown mask and reports that mask as the `KeyError`. |
| Conversion.NetworkLinesDistinguishable | objects_checkpoint_to_palo.py:149-153 | Network directives start with `s` and network error lines with a digit. |
| Conversion.NetworkFilesLines | objects_checkpoint_to_palo.py:136-153 | The network output file holds the directives. The network review file holds only its banner. The host review file keeps its earlier lines, followed by the network error lines. |
| Conversion.NetworkFilesFrame | objects_checkpoint_to_palo.py:134-153 | The network converter writes only the two network files and the host review file. What it leaves there depends only on the host review file's earlier state. |
| Conversion.NetworkRowRouted | objects_checkpoint_to_palo.py:141-153 | Each network row yields one line: a directive in the network output file, or an error line in the newly added part of the host review file, never both. The network review file stays empty. |
| Conversion.NetworkDirectiveFields | objects_checkpoint_to_palo.py:142-153 | With the constructor's table, the directive for a mask with `n` leading ones ends in `/n`. Its name field is the normalised name. |
| Conversion.UnknownMaskStopsRun | objects_checkpoint_to_palo.py:141-144 | An unknown mask at row `k` stops the run. Only the first `k` rows leave lines, and the `KeyError` names that mask. |
| Conversion.LookupBeforeLengthCheck | objects_checkpoint_to_palo.py:144-149 | A long address with an unknown mask raises instead of being diverted, and the host review file is unchanged. |
| Conversion.PortLines | objects_checkpoint_to_palo.py:164-170 | There is one directive per service row, in row order. |
| Conversion.PortConversionStep | objects_checkpoint_to_palo.py:164-170 | One more service row appends its directive to the service output file. |
| Conversion.ConvertPortObjects | objects_checkpoint_to_palo.py:157-170 | The converter truncates both service files. The output file then holds one directive per row. |
| Conversion.PortRowsAllConverted | objects_checkpoint_to_palo.py:164-170 | Each service row becomes a directive with the normalised name as one field, protocol `tcp` and its port. Nothing goes to the service review file. |
| Conversion.HostRerun | objects_checkpoint_to_palo.py:113-118 | The host files a host run leaves do not depend on what was on disk, and a second run changes nothing. |
| Conversion.PortRerun | objects_checkpoint_to_palo.py:157-162 | The service files a service run leaves do not depend on what was on disk, and a second run changes nothing. |
| Conversion.HostThenNetworkIndependent | objects_checkpoint_to_palo.py:175-178 | After the host converter and then the network converter, the four host and network files do not depend on what was on disk before. |
| Conversion.RunIndependentOfEarlierFiles | objects_checkpoint_to_palo.py:175-179 | A whole run raises for the same mask whatever was on disk. Without an error, it leaves the same six files. With one, the host and network files are still the same, and the service output file is the one left from before. |
| Conversion.NetworkRerunRepeatsErrors | objects_checkpoint_to_palo.py:138-149 | Running the network converter on its own twice writes its error lines to the host review file twice. |

## Left out

- Reading the CSV (`pd.read_csv`), including its `na_values` conversion, is not modelled. The table is given as rows with explicit labels. With the default labels, each row's label is its position (`Indexed`).
- The column projections `[['Name','IPv4']]` and the like are not modelled as such. On a frame that has its columns they only drop columns the converters never read; on the frame without columns they raise `KeyError`, which the selectors return as `None`.
- Cells are strings or missing. Pandas' typing of a numeric `Port` column as float is not modelled, so `80` is never rendered as `80.0`. The port text is taken as it is.
- A missing `Name` is not modelled. The name is always a string, whereas the source would format `nan` or fail in `strip`.
- `IPV4_REGEX` is not modelled because the source never uses it.
- File I/O is a value that is passed in and returned. Failures to open or write a file are not modelled.
- The `__main__` block is modelled by the order in which `RunIndependentOfEarlierFiles` composes the three converters. No entry point is written.
- The converters take the object's `subnet_masks` dictionary as a parameter. Lemmas that need the constructor's table use `Masks.SubnetMasks`.
