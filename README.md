# Verilog testbench generator, modelled in Dafny

`generatore_testbench.py` reads a Verilog module and writes a UVM testbench skeleton for it.
This project models the three operations at its core and proves what they promise.

- **`parse_verilog`** (`extractor.dfy`, module `Extractor`). It finds the first
  `\bmodule\s+(\w+)` and takes the identifier as the module name. It collects every
  non-overlapping match of `(input|output|inout)\s+((\[[^\]]+\])?\s*\w+)` in the whole text,
  turning each one into a port record: the direction, the stripped bracket width or `""`, and
  the trailing word as the name. It fails with `ModuleNotFound` or `NoPortsFound`.
  - The two regular expressions are written out as an explicit scanner (`ModuleMatchAt`,
    `PortMatchAt`).
  - Each scanner is proved equivalent to a declarative reading of its regex
    (`ModuleInstance`, `PortInstance`), including the greedy choice among readings.
  - `re.findall` is a left-to-right scan over the table of match attempts (`Scan`). It is
    proved to yield exactly the leftmost, non-overlapping matches.
  - `ParseVerilog` is the record-building loop, proved equal to the function `Parse`.
- **`generate_uvm_testbench`** (`testbench.dfy`, module `Testbench`). The method
  `GenerateTestbench` appends the lines one at a time and removes the last character of the
  last line in place, exactly as the source does. It is proved equal to the line function
  `TestbenchLines`, joined with newlines.
  - Lemmas state the layout: one declaration per port, `reg` for inputs and `wire` otherwise;
    one connection per port, without a comma after the last one; the clock and reset blocks
    driven by the first port whose lower-cased name starts with `clk` or `rst`; and the fixed
    frame.
- **`generate_uvm_environment`**, without its file writes (`environment.dfy`, module
  `Environment`). `GenerateEnvironment` fills the map from file name to text entry by entry.
  It is proved equal to `EnvironmentFiles`, whose four keys are distinct.

`text.dfy` (module `Text`) holds the character classes and string helpers: `\w`, `\s`,
`str.strip`, `str.lower`, the trailing-word search and `"\n".join`. `wrappers.dfy` holds
`Option` and `Result`.

The model follows the code in these points, which differ from what its output might suggest:

- The module is looked up before the ports. A text with ports but no module therefore fails
  with `ModuleNotFound`, not `NoPortsFound`.
- `NoPortsFound` means that the port regex matched nowhere. Occurrences of `input` with no
  identifier after them do not count.
- The instantiation is written over several lines, opening with `<m> uut (`, not as one
  `uut(...)` line.

These quirks of the code are kept, not fixed:

- `data_input x` yields a port, because there is no word boundary before the keyword.
- `output reg [7:0] r` yields a port named `reg` with no width.
- `input a, b` yields `a` only.
- Ports are collected from the whole text, not just the module body.

## Model

| member | source | states |
|---|---|---|
| Extractor.ModuleMatchAtSound | generatore_testbench.py:18 | a scanner match at i is a reading of the module regex at i (word boundary, `module`, at least one blank, a word) and its name is the maximal word after the blanks |
| Extractor.ModuleMatchAtComplete | generatore_testbench.py:18 | every reading of the module regex at i is found by the scanner, whose name starts after the blanks and is at least as long |
| Extractor.ModuleMatchAtIff | generatore_testbench.py:18 | the scanner matches at i if and only if the module regex matches at i |
| Extractor.SearchModule | generatore_testbench.py:18 | a search hit lies at or after the starting point and is the scanner's match there |
| Extractor.SearchModuleMisses | generatore_testbench.py:18 | the module regex matches nowhere between the starting point and the hit, or nowhere at all when the search fails |
| Extractor.SearchModuleFirst | generatore_testbench.py:18-21 | the module name is that of the leftmost occurrence of the module regex, and no occurrence starts earlier |
| Extractor.KeywordsExclusive | generatore_testbench.py:24 | at most one of `input`, `output`, `inout` occurs at a position |
| Extractor.KeywordAtFinds | generatore_testbench.py:24 | the keyword that occurs at p is the one recognised there |
| Extractor.PortMatchAtSound | generatore_testbench.py:24 | a scanner match at p is a reading of the port regex at p, with group 2 the text from the width (or name) to the end of the name and group 3 the bracket token |
| Extractor.PortMatchAtComplete | generatore_testbench.py:24 | every reading of the port regex at p is found by the scanner, with the same keyword and bracket, the name at the same place and at least as long |
| Extractor.PortMatchAtIff | generatore_testbench.py:24 | the scanner matches at p if and only if the port regex matches at p |
| Extractor.SeparatorIsBlank | generatore_testbench.py:24 | `input`, the separator U+001C, then `a` is a port match, since U+001C is one of the blanks `\s` accepts |
| Extractor.PortMatchAtGreedy | generatore_testbench.py:24 | the scanner's match is the one the regex engine picks: longest blank runs and name among all readings at p |
| Extractor.ScanHitIsMatch | generatore_testbench.py:24 | every match the scan reports is the port match at its start |
| Extractor.ScanCovers | generatore_testbench.py:24 | every position where the port regex matches lies inside some reported match |
| Extractor.ScanIsLeftmostMatches | generatore_testbench.py:24 | the reported matches are greedy, in order, non-overlapping, and cover every position where the regex matches, as `re.findall` scans |
| Extractor.GreedyMatchUnique | generatore_testbench.py:24 | at one position there is at most one greedy match of the port regex |
| Extractor.LeftmostMatchesUnique | generatore_testbench.py:24 | any two sequences of leftmost, non-overlapping greedy matches covering every match position are equal, so `re.findall`'s matches are determined by the text |
| Extractor.FindAll | generatore_testbench.py:24 | one group tuple per reported match, in order |
| Extractor.BracketOfMatch | generatore_testbench.py:32 | the width group is `""` or `[`, at least one non-`]`, `]`, and stripping it changes nothing |
| Extractor.NameOfMatch | generatore_testbench.py:33 | the trailing word of group 2 is exactly the name the regex matched, a non-empty run of word characters |
| Extractor.ToPortOfMatch | generatore_testbench.py:31-37 | the record built from a match holds its direction, its bracket token verbatim and its name |
| Extractor.Records | generatore_testbench.py:29-38 | one record per tuple |
| Extractor.RecordsSnoc | generatore_testbench.py:30-38 | each loop step appends the record of the next tuple |
| Extractor.ParseVerilog | generatore_testbench.py:18-40 | the loop returns what `Parse` describes; a success holds at least one port |
| Extractor.ParsePorts | generatore_testbench.py:24-40 | on success the ports are, one for one and in order, the leftmost non-overlapping port matches of the whole text: their direction, width token and name |
| Extractor.ScanRecords | generatore_testbench.py:29-38 | on success the ports are, one for one and in order, the direction, bracket token and matched name of the scanned matches, each a match of the port regex |
| Extractor.ParsePortsOfLeftmost | generatore_testbench.py:24-40 | on success, for any sequence of leftmost non-overlapping port matches, the ports are one for one and in order their direction, width token and name |
| Extractor.ParsedPortShape | generatore_testbench.py:29-38 | every parsed width is `""` or a bracket token with no `]` inside, and every name is a non-empty identifier |
| Extractor.ParseModuleNotFound | generatore_testbench.py:18-20 | parsing fails with `ModuleNotFound` if and only if the module regex matches nowhere, whatever ports the text has |
| Extractor.ParseNoPortsFound | generatore_testbench.py:18-26 | parsing fails with `NoPortsFound` if and only if the module regex matches somewhere and the port regex matches nowhere |
| Extractor.ParseModuleName | generatore_testbench.py:18-21 | when a module is found, the module name is the name of its first occurrence, and it is the name a successful parse returns |
| Text.TrailingWordSound | generatore_testbench.py:33 | the trailing word is a suffix made of word characters, preceded by a non-word character or the start |
| Text.StripSound | generatore_testbench.py:32 | stripping removes only leading and trailing blanks and leaves none at either end |
| Text.StripKeepsToken | generatore_testbench.py:32 | a text without blanks at its ends is unchanged by stripping |
| Text.StartsWithIgnoringCaseIff | generatore_testbench.py:73-74 | for a prefix of lower-case letters such as `clk` or `rst`, the lower-cased name starts with it if and only if the name is at least as long and each of its first characters is that letter in lower or upper case |
| Text.JoinLinesEnds | generatore_testbench.py:94 | the joined text of no lines is empty, and otherwise starts with the first line and ends with the last |
| Text.JoinLinesAppend | generatore_testbench.py:94 | joining two non-empty blocks puts one newline between their joined texts |
| Testbench.FirstWithPrefixNone | generatore_testbench.py:73-74 | no signal is found if and only if no port name, lower-cased, starts with the prefix |
| Testbench.FirstWithPrefixIndex | generatore_testbench.py:73-74 | the signal found is the name of the first port whose lower-cased name starts with the prefix |
| Testbench.FirstWithPrefixFinds | generatore_testbench.py:73-74 | the first port whose lower-cased name starts with the prefix is the one found |
| Testbench.FoundNameIsTruthy | generatore_testbench.py:75-79 | a found name is at least as long as the prefix, so the truth test on it holds exactly when a port was found |
| Testbench.DeclLines | generatore_testbench.py:55-61 | one declaration line per port, in port order |
| Testbench.DeclLinesSnoc | generatore_testbench.py:55-61 | each loop step appends the declaration of the next port |
| Testbench.AppendDeclarations | generatore_testbench.py:55-61 | the declaration loop appends exactly the declarations of all ports, in order |
| Testbench.TrimmedInstance | generatore_testbench.py:66-69 | removing the last character of the last line removes the comma of the last connection, or the `(` of the head when there are no ports |
| Testbench.AppendInstance | generatore_testbench.py:65-69 | the instantiation loop and the in-place trim append the head and the connections, each but the last followed by a comma |
| Testbench.GenerateTestbench | generatore_testbench.py:43-94 | the generated text is the testbench lines joined with newlines |
| Testbench.TestbenchParts | generatore_testbench.py:47-93 | the testbench is the 2n+7 lines about the module under test followed by the clock, reset and UVM part |
| Testbench.DutDeclaresPorts | generatore_testbench.py:50-61 | the testbench opens with the timescale, the module head and the comment; line 3+k is `reg` or `wire`, then the width and the name of port k |
| Testbench.TestbenchDeclaration | generatore_testbench.py:55-61 | line 3+k of the testbench is the declaration of port k |
| Testbench.DutInstanceHead | generatore_testbench.py:62-70 | after the declarations come a blank line, the comment and `<m> uut (`, and the instantiation is closed after the connections |
| Testbench.DutConnection | generatore_testbench.py:67-69 | line n+6+k connects port k by name to the signal of the same name, followed by a comma unless it is the last port |
| Testbench.DutWithoutPorts | generatore_testbench.py:66-70 | without ports the head `<m> uut ` loses its `(` and is followed by the closing line |
| Testbench.StimulusClock | generatore_testbench.py:75-78 | the stimulus part opens with the clock block, if any, and then a blank line |
| Testbench.StimulusReset | generatore_testbench.py:78-87 | after the clock block and its blank line come the reset block, if any, and then the UVM stub |
| Testbench.TestbenchClock | generatore_testbench.py:73-78 | with a port whose lower-cased name starts with `clk`, the first such port toggles every 5 time units right after the instantiation |
| Testbench.TestbenchNoClock | generatore_testbench.py:73-78 | without such a port the instantiation is followed directly by a blank line |
| Testbench.TestbenchReset | generatore_testbench.py:74-84 | with a port whose lower-cased name starts with `rst`, the first such port is held at 1 for 10 time units and then released, after the clock block |
| Testbench.TestbenchNoReset | generatore_testbench.py:74-87 | without such a port the UVM stub follows the clock block's blank line |
| Testbench.TestbenchLength | generatore_testbench.py:47-93 | the testbench has 2n+14 lines, plus 2 with a clock-like port and 5 with a reset-like port |
| Testbench.TestbenchFrame | generatore_testbench.py:50-93 | every testbench opens with the timescale line and `module <m>_tb;` and ends with the same UVM stub and `endmodule` |
| Testbench.TestbenchTextFrame | generatore_testbench.py:50-94 | the joined text starts with the timescale line and ends with `endmodule` and a newline |
| Environment.GenerateEnvironment | generatore_testbench.py:101-130 | the map filled entry by entry is the four files of the environment |
| Environment.EnvironmentHasFourFiles | generatore_testbench.py:101-130 | the map has exactly four distinct keys: `<m>_if.sv`, `<m>_driver.sv`, `<m>_monitor.sv`, `<m>_sequence.sv` |
| Environment.ShellsIgnorePorts | generatore_testbench.py:111-130 | the driver, monitor and sequence files are the same whatever the ports |
| Environment.InterfaceDeclaresPorts | generatore_testbench.py:104-108 | the interface is its head, one `logic <width> <name>;` line per port in order without direction, and its end |
| Environment.InterfaceSignal | generatore_testbench.py:106-107 | line k+1 of the interface is the signal of port k |
| Environment.InterfaceMatchesTestbench | generatore_testbench.py:106-107 | the interface line of port k and the testbench declaration of port k end with the same width and name |

## Left out

- Reading the Verilog file and writing the environment files (generatore_testbench.py:14-15, 133-135): file I/O. The extractor takes the text as a string, and the environment generator returns the map.
- The Tk window, the file dialogs and the message boxes (generatore_testbench.py:138-186): presentation only.
- `hdl_generator_v2.py` and `hdl_generator_gui.py` are not part of this model. They hold GUI code and constant Verilog text.
- Unicode: `\w`, `\s` and `str.lower` are modelled on ASCII only. `\w` is `[A-Za-z0-9_]`. `\s` and the blanks `str.strip` removes are the ASCII characters `str.isspace` accepts: space, tab, newline, vertical tab, form feed, carriage return and U+001C to U+001F. Non-ASCII letters count neither as word characters nor as letters to lower-case, and non-ASCII blanks such as U+0085 and U+00A0 are not blanks.
- The error messages: the two `ValueError`s are the two cases of `ParseError`.
- Python's truth test on the found clock and reset names is modelled as `Some?`; FoundNameIsTruthy shows that the two agree.
- The per-port dictionaries become `Port` records, and the port type string becomes the `Direction` datatype, so a type outside the three keywords cannot occur. The `elif` chain of the declaration loop therefore needs no fall-through case.
