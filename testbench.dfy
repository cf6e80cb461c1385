/**
 * generate_uvm_testbench: the Verilog testbench text written around a parsed module. It
 * declares one signal per port, instantiates the module as `uut`, toggles the first clock-like
 * port, pulses the first reset-like port, and closes with a UVM stub.
 */
module Testbench {
  import opened Wrappers
  import opened Text
  import opened Extractor

  // ----------------------------------------------------------------------------------------
  // Clock and reset detection

  /** The port at index k is the first whose name, lower-cased, starts with prefix. */
  ghost predicate IsFirstWithPrefix(ports: seq<Port>, prefix: string, k: nat) {
    && k < |ports|
    && StartsWithIgnoringCase(ports[k].name, prefix)
    && forall j :: 0 <= j < k ==> !StartsWithIgnoringCase(ports[j].name, prefix)
  }

  /** The name of the first port whose lower-cased name starts with prefix, or None when there is none. */
  function FirstWithPrefix(ports: seq<Port>, prefix: string): Option<string> {
    if ports == [] then None
    else if StartsWithIgnoringCase(ports[0].name, prefix) then Some(ports[0].name)
    else FirstWithPrefix(ports[1..], prefix)
  }

  /** Nothing is found exactly when no name, lower-cased, starts with prefix. */
  lemma {:induction false} FirstWithPrefixNone(ports: seq<Port>, prefix: string)
    ensures FirstWithPrefix(ports, prefix).None? <==>
            forall k :: 0 <= k < |ports| ==> !StartsWithIgnoringCase(ports[k].name, prefix)
  {
    if ports != [] && !StartsWithIgnoringCase(ports[0].name, prefix) {
      FirstWithPrefixNone(ports[1..], prefix);
      assert forall k :: 1 <= k < |ports| ==> ports[k] == ports[1..][k - 1];
    }
  }

  /** What is found is the name of the first port whose name, lower-cased, starts with prefix. */
  lemma {:induction false} FirstWithPrefixIndex(ports: seq<Port>, prefix: string) returns (k: nat)
    requires FirstWithPrefix(ports, prefix).Some?
    ensures IsFirstWithPrefix(ports, prefix, k) && FirstWithPrefix(ports, prefix).value == ports[k].name
  {
    if StartsWithIgnoringCase(ports[0].name, prefix) {
      k := 0;
    } else {
      var k' := FirstWithPrefixIndex(ports[1..], prefix);
      k := k' + 1;
      assert forall j :: 1 <= j < k ==> ports[j] == ports[1..][j - 1];
    }
  }

  /** A name found by FirstWithPrefix is never empty, so Python's `if clk_signal:` holds exactly when one is found. */
  lemma FoundNameIsTruthy(ports: seq<Port>, prefix: string)
    requires prefix != [] && FirstWithPrefix(ports, prefix).Some?
    ensures |FirstWithPrefix(ports, prefix).value| >= |prefix|
  {
    var k := FirstWithPrefixIndex(ports, prefix);
    assert |prefix| <= |LowerString(ports[k].name)|;
  }

  /** Conversely, the first port whose name starts with the prefix is the one found. */
  lemma FirstWithPrefixFinds(ports: seq<Port>, prefix: string, k: nat)
    requires IsFirstWithPrefix(ports, prefix, k)
    ensures FirstWithPrefix(ports, prefix) == Some(ports[k].name)
  {
    FirstWithPrefixNone(ports, prefix);
    var k' := FirstWithPrefixIndex(ports, prefix);
    assert k' == k;
  }

  // ----------------------------------------------------------------------------------------
  // The lines of the testbench

  function HeaderLines(moduleName: string): seq<string> {
    ["`timescale 1ns/1ps", "module " + moduleName + "_tb;\n", "    // Dichiarazione dei segnali"]
  }

  /** The signal declaration of one port: a `reg` the testbench drives for an input, a `wire` otherwise. */
  function DeclLine(p: Port): string {
    (if p.dir == Input then "    reg " else "    wire ") + p.width + " " + p.name + ";"
  }

  function DeclLines(ports: seq<Port>): (lines: seq<string>)
    ensures |lines| == |ports| && forall k :: 0 <= k < |ports| ==> lines[k] == DeclLine(ports[k])
  {
    seq(|ports|, k requires 0 <= k < |ports| => DeclLine(ports[k]))
  }

  /** The named connection of one port to the signal of the same name, without a separator. */
  function ConnectLine(p: Port): string {
    "        ." + p.name + "(" + p.name + ")"
  }

  /**
   * The instantiation of the module under test: its head, then one connection per port, each
   * but the last followed by a comma. The character removed from the last line is the comma of
   * the last connection or, with no ports at all, the opening parenthesis of the head.
   */
  function InstanceLines(moduleName: string, ports: seq<Port>): seq<string> {
    [if ports == [] then "    " + moduleName + " uut " else "    " + moduleName + " uut ("]
    + seq(|ports|, k requires 0 <= k < |ports| => ConnectLine(ports[k]) + (if k < |ports| - 1 then "," else ""))
  }

  function ClockLines(clk: Option<string>): seq<string> {
    match clk
    case None => []
    case Some(c) => ["    // Generazione del clock", "    always #5 " + c + " = ~" + c + ";"]
  }

  function ResetLines(rst: Option<string>): seq<string> {
    match rst
    case None => []
    case Some(r) => ["    // Gestione del reset", "    initial begin", "        " + r + " = 1;", "        #10 " + r + " = 0;", "    end\n"]
  }

  const UvmLines: seq<string> :=
    ["    // Istanziazione del testbench UVM", "    initial begin",
     "        uvm_config_db#(virtual interface).set(this, \"\", \"vif\", vif);", "        run_test();", "    end\n"]

  /** Every line of the testbench in order, before they are joined with newlines. */
  function TestbenchLines(moduleName: string, ports: seq<Port>): seq<string> {
    DutLines(moduleName, ports) + StimulusLines(FirstWithPrefix(ports, "clk"), FirstWithPrefix(ports, "rst"))
  }

  /** The header, the signal declarations and the instantiation of the module under test. */
  function DutLines(moduleName: string, ports: seq<Port>): seq<string> {
    HeaderLines(moduleName) + DeclLines(ports) + ["", "    // Instanziazione del modulo DUT"]
    + InstanceLines(moduleName, ports) + ["    );\n"]
  }

  /** The clock and reset blocks, the UVM stub and the end of the module. */
  function StimulusLines(clk: Option<string>, rst: Option<string>): seq<string> {
    ClockLines(clk) + [""] + ResetLines(rst) + UvmLines + ["endmodule\n"]
  }

  // ----------------------------------------------------------------------------------------
  // generate_uvm_testbench

  /** Adding one more port to the declared prefix adds its declaration at the end. */
  lemma DeclLinesSnoc(ports: seq<Port>, i: nat)
    requires i < |ports|
    ensures DeclLines(ports[..i + 1]) == DeclLines(ports[..i]) + [DeclLine(ports[i])]
  {
    assert ports[..i + 1][..i] == ports[..i];
  }

  /** Removing the last character of the last line turns the comma-terminated list into the instantiation. */
  lemma TrimmedInstance(moduleName: string, ports: seq<Port>, head: string, conns: seq<string>)
    requires head == "    " + moduleName + " uut ("
    requires |conns| == |ports| && forall k :: 0 <= k < |ports| ==> conns[k] == ConnectLine(ports[k]) + ","
    ensures var lines := [head] + conns;
      |lines[|lines| - 1]| > 0
      && lines[..|lines| - 1] + [lines[|lines| - 1][..|lines[|lines| - 1]| - 1]] == InstanceLines(moduleName, ports)
  {
    var lines := [head] + conns;
    var last := lines[|lines| - 1];
    var trimmed := lines[..|lines| - 1] + [last[..|last| - 1]];
    var expected := InstanceLines(moduleName, ports);
    if ports == [] {
      assert last[..|last| - 1] == "    " + moduleName + " uut ";
    } else {
      assert |trimmed| == |expected|;
      forall k | 0 <= k < |trimmed| ensures trimmed[k] == expected[k] {
        if k == |ports| {
          assert last == ConnectLine(ports[k - 1]) + ",";
          assert last[..|last| - 1] == ConnectLine(ports[k - 1]);
        }
      }
    }
  }

  /** Appending two lines one at a time appends them as a block. */
  lemma AppendTwo(x: seq<string>, a: string, b: string)
    ensures x + [a] + [b] == x + [a, b]
  {
  }

  /** Appending five lines one at a time appends them as a block. */
  lemma AppendFive(x: seq<string>, a: string, b: string, c: string, d: string, e: string)
    ensures x + [a] + [b] + [c] + [d] + [e] == x + [a, b, c, d, e]
  {
  }

  /** The stimulus blocks appended one after another after the instantiation. */
  lemma AppendBlocks(dut: seq<string>, a: seq<string>, b: seq<string>, c: seq<string>, d: seq<string>, e: seq<string>)
    ensures dut + a + b + c + d + e == dut + (a + b + c + d + e)
  {
  }

  /** The declaration loop of generate_uvm_testbench: one `reg` or `wire` line per port, in order. */
  method AppendDeclarations(tbCode: seq<string>, ports: seq<Port>) returns (lines: seq<string>)
    ensures lines == tbCode + DeclLines(ports)
  {
    lines := tbCode;
    for i := 0 to |ports|
      invariant lines == tbCode + DeclLines(ports[..i])
    {
      var port := ports[i];
      DeclLinesSnoc(ports, i);
      match port.dir
      case Input => lines := lines + ["    reg " + port.width + " " + port.name + ";"];
      case Output => lines := lines + ["    wire " + port.width + " " + port.name + ";"];
      case Inout => lines := lines + ["    wire " + port.width + " " + port.name + ";"];
    }
    assert ports[..|ports|] == ports;
  }

  /**
   * The instantiation of generate_uvm_testbench: the head, one comma-terminated connection per
   * port, then the last character of the last line removed in place.
   */
  method AppendInstance(tbCode: seq<string>, moduleName: string, ports: seq<Port>) returns (lines: seq<string>)
    ensures lines == tbCode + InstanceLines(moduleName, ports)
  {
    var head := "    " + moduleName + " uut (";
    lines := tbCode + [head];
    var conns: seq<string> := [];
    for i := 0 to |ports|
      invariant |conns| == i && forall k :: 0 <= k < i ==> conns[k] == ConnectLine(ports[k]) + ","
      invariant lines == tbCode + [head] + conns
    {
      var port := ports[i];
      lines := lines + ["        ." + port.name + "(" + port.name + "),"];
      conns := conns + ["        ." + port.name + "(" + port.name + "),"];
    }
    TrimmedInstance(moduleName, ports, head, conns);
    assert lines == tbCode + ([head] + conns);
    var last := lines[|lines| - 1];
    lines := lines[..|lines| - 1] + [last[..|last| - 1]];
    assert lines[..|lines| - 1] == tbCode + ([head] + conns)[..|conns|];
  }

  /**
   * generate_uvm_testbench: appends the lines one by one as the source does, removes the last
   * character of the last connection in place, and joins the lines with newlines.
   */
  method GenerateTestbench(moduleName: string, ports: seq<Port>) returns (tb: string)
    ensures tb == JoinLines(TestbenchLines(moduleName, ports))
  {
    var tbCode: seq<string> := [];

    tbCode := tbCode + ["`timescale 1ns/1ps"];
    tbCode := tbCode + ["module " + moduleName + "_tb;\n"];

    tbCode := tbCode + ["    // Dichiarazione dei segnali"];
    tbCode := AppendDeclarations(tbCode, ports);
    tbCode := tbCode + [""];

    tbCode := tbCode + ["    // Instanziazione del modulo DUT"];
    tbCode := AppendInstance(tbCode, moduleName, ports);
    tbCode := tbCode + ["    );\n"];
    assert tbCode == DutLines(moduleName, ports);

    var clkSignal := FirstWithPrefix(ports, "clk");
    var rstSignal := FirstWithPrefix(ports, "rst");
    var dut := tbCode;
    if clkSignal.Some? {
      tbCode := tbCode + ["    // Generazione del clock"];
      tbCode := tbCode + ["    always #5 " + clkSignal.value + " = ~" + clkSignal.value + ";"];
      AppendTwo(dut, "    // Generazione del clock", "    always #5 " + clkSignal.value + " = ~" + clkSignal.value + ";");
    }
    assert tbCode == dut + ClockLines(clkSignal);
    tbCode := tbCode + [""];
    var beforeReset := tbCode;
    if rstSignal.Some? {
      tbCode := tbCode + ["    // Gestione del reset"];
      tbCode := tbCode + ["    initial begin"];
      tbCode := tbCode + ["        " + rstSignal.value + " = 1;"];
      tbCode := tbCode + ["        #10 " + rstSignal.value + " = 0;"];
      tbCode := tbCode + ["    end\n"];
      AppendFive(beforeReset, "    // Gestione del reset", "    initial begin", "        " + rstSignal.value + " = 1;",
                 "        #10 " + rstSignal.value + " = 0;", "    end\n");
    }
    assert tbCode == beforeReset + ResetLines(rstSignal);
    var beforeUvm := tbCode;

    tbCode := tbCode + ["    // Istanziazione del testbench UVM"];
    tbCode := tbCode + ["    initial begin"];
    tbCode := tbCode + ["        uvm_config_db#(virtual interface).set(this, \"\", \"vif\", vif);"];
    tbCode := tbCode + ["        run_test();"];
    tbCode := tbCode + ["    end\n"];
    AppendFive(beforeUvm, "    // Istanziazione del testbench UVM", "    initial begin",
               "        uvm_config_db#(virtual interface).set(this, \"\", \"vif\", vif);", "        run_test();", "    end\n");
    assert tbCode == beforeUvm + UvmLines;

    tbCode := tbCode + ["endmodule\n"];
    AppendBlocks(dut, ClockLines(clkSignal), [""], ResetLines(rstSignal), UvmLines, ["endmodule\n"]);
    assert tbCode == dut + StimulusLines(clkSignal, rstSignal);
    tb := JoinLines(tbCode);
  }

  // ----------------------------------------------------------------------------------------
  // What the generated testbench contains

  /** The testbench is the part about the module under test followed by the stimulus part. */
  lemma TestbenchParts(moduleName: string, ports: seq<Port>)
    ensures TestbenchLines(moduleName, ports) ==
            DutLines(moduleName, ports) + StimulusLines(FirstWithPrefix(ports, "clk"), FirstWithPrefix(ports, "rst"))
    ensures |DutLines(moduleName, ports)| == 2 * |ports| + 7
  {
  }

  /**
   * The testbench opens with the timescale, the module head and a comment, then line 3 + k declares
   * port k: a `reg` when it is an input, a `wire` when it is an output or inout.
   */
  lemma DutDeclaresPorts(moduleName: string, ports: seq<Port>)
    ensures var lines := DutLines(moduleName, ports);
      && |lines| > |ports| + 3
      && lines[..3] == ["`timescale 1ns/1ps", "module " + moduleName + "_tb;\n", "    // Dichiarazione dei segnali"]
      && forall k :: 0 <= k < |ports| ==>
           lines[3 + k] == (if ports[k].dir == Input then "    reg " else "    wire ") + ports[k].width + " " + ports[k].name + ";"
  {
    var lines := DutLines(moduleName, ports);
    assert lines[..3 + |ports|] == HeaderLines(moduleName) + DeclLines(ports);
  }

  /** Line 3 + k of the testbench is the declaration of port k alone. */
  lemma TestbenchDeclaration(moduleName: string, ports: seq<Port>, k: nat)
    requires k < |ports|
    ensures 3 + k < |TestbenchLines(moduleName, ports)|
    ensures TestbenchLines(moduleName, ports)[3 + k] == DeclLine(ports[k])
  {
    var dut := DutLines(moduleName, ports);
    assert TestbenchLines(moduleName, ports)[3 + k] == dut[3 + k];
    assert dut[3 + k] == (HeaderLines(moduleName) + DeclLines(ports))[3 + k];
  }

  /**
   * After the declarations, a blank line and a comment, the module is instantiated as `uut`, and
   * after the connections the instantiation is closed.
   */
  lemma DutInstanceHead(moduleName: string, ports: seq<Port>)
    requires ports != []
    ensures var lines := DutLines(moduleName, ports);
      var n := |ports|;
      && |lines| == 2 * n + 7
      && lines[n + 3..n + 6] == ["", "    // Instanziazione del modulo DUT", "    " + moduleName + " uut ("]
      && lines[2 * n + 6] == "    );\n"
  {
    var n := |ports|;
    var front := HeaderLines(moduleName) + DeclLines(ports) + ["", "    // Instanziazione del modulo DUT"];
    var inst := InstanceLines(moduleName, ports);
    assert DutLines(moduleName, ports) == front + inst + ["    );\n"];
    assert |front| == n + 5;
    assert DutLines(moduleName, ports)[n + 3..n + 6] == front[n + 3..] + [inst[0]];
  }

  /**
   * Line n + 6 + k of the part about the module under test connects port k by name to the signal
   * of the same name, followed by a comma unless it is the last port.
   */
  lemma DutConnection(moduleName: string, ports: seq<Port>, k: nat)
    requires k < |ports|
    ensures |ports| + 6 + k < |DutLines(moduleName, ports)|
    ensures DutLines(moduleName, ports)[|ports| + 6 + k] ==
            ConnectLine(ports[k]) + (if k < |ports| - 1 then "," else "")
  {
    var front := HeaderLines(moduleName) + DeclLines(ports) + ["", "    // Instanziazione del modulo DUT"];
    var inst := InstanceLines(moduleName, ports);
    assert DutLines(moduleName, ports) == front + inst + ["    );\n"];
    assert |front| == |ports| + 5;
    assert DutLines(moduleName, ports)[|ports| + 6 + k] == inst[1 + k];
  }

  /** Without ports the instantiation head loses its opening parenthesis instead of a comma. */
  lemma DutWithoutPorts(moduleName: string)
    ensures DutLines(moduleName, [])[5..7] == ["    " + moduleName + " uut ", "    );\n"]
  {
  }

  /** A slice that lies in the second part of a concatenation. */
  lemma SliceOfSecond(a: seq<string>, b: seq<string>, i: nat, j: nat)
    requires |a| <= i <= j <= |a| + |b|
    ensures (a + b)[i..j] == b[i - |a|..j - |a|]
  {
  }

  /** The stimulus part opens with the clock block, if any, then a blank line. */
  lemma StimulusClock(clk: Option<string>, rst: Option<string>)
    ensures clk.None? ==> StimulusLines(clk, rst)[0] == ""
    ensures clk.Some? ==> |StimulusLines(clk, rst)| > 3 && StimulusLines(clk, rst)[..3] == ClockLines(clk) + [""]
  {
    assert StimulusLines(clk, rst) == (ClockLines(clk) + [""]) + (ResetLines(rst) + UvmLines + ["endmodule\n"]);
  }

  /** After the clock block and its blank line come the reset block, if any, then the UVM stub. */
  lemma StimulusReset(clk: Option<string>, rst: Option<string>)
    ensures var c := |ClockLines(clk)| + 1;
      && |StimulusLines(clk, rst)| > c + 4
      && (rst.None? ==> StimulusLines(clk, rst)[c] == "    // Istanziazione del testbench UVM")
      && (rst.Some? ==> StimulusLines(clk, rst)[c..c + 5] == ResetLines(rst))
  {
    assert StimulusLines(clk, rst) == (ClockLines(clk) + [""]) + (ResetLines(rst) + UvmLines + ["endmodule\n"]);
  }

  /** With a port whose lower-cased name starts with `clk`, the first such port toggles every 5 time units. */
  lemma TestbenchClock(moduleName: string, ports: seq<Port>, k: nat)
    requires IsFirstWithPrefix(ports, "clk", k)
    ensures var lines := TestbenchLines(moduleName, ports);
      var n := |ports|;
      |lines| > 2 * n + 9 && lines[2 * n + 7..2 * n + 10] == ClockLines(Some(ports[k].name)) + [""]
  {
    var dut := DutLines(moduleName, ports);
    var clk := FirstWithPrefix(ports, "clk");
    var stimulus := StimulusLines(clk, FirstWithPrefix(ports, "rst"));
    TestbenchParts(moduleName, ports);
    FirstWithPrefixFinds(ports, "clk", k);
    StimulusClock(clk, FirstWithPrefix(ports, "rst"));
    SliceOfSecond(dut, stimulus, 2 * |ports| + 7, 2 * |ports| + 10);
  }

  /** Without such a port there is no clock block: the instantiation is followed by a blank line. */
  lemma TestbenchNoClock(moduleName: string, ports: seq<Port>)
    requires forall k :: 0 <= k < |ports| ==> !StartsWithIgnoringCase(ports[k].name, "clk")
    ensures var lines := TestbenchLines(moduleName, ports);
      |lines| > 2 * |ports| + 7 && lines[2 * |ports| + 7] == ""
  {
    var clk := FirstWithPrefix(ports, "clk");
    FirstWithPrefixNone(ports, "clk");
    TestbenchParts(moduleName, ports);
    StimulusClock(clk, FirstWithPrefix(ports, "rst"));
  }

  /**
   * With a port whose lower-cased name starts with `rst`, the first such port is held at 1 for 10
   * time units then released, in the block after the clock block and its blank line.
   */
  lemma TestbenchReset(moduleName: string, ports: seq<Port>, k: nat)
    requires IsFirstWithPrefix(ports, "rst", k)
    ensures var lines := TestbenchLines(moduleName, ports);
      var r := 2 * |ports| + 8 + (if FirstWithPrefix(ports, "clk").Some? then 2 else 0);
      |lines| > r + 4 && lines[r..r + 5] == ResetLines(Some(ports[k].name))
  {
    var dut := DutLines(moduleName, ports);
    var clk := FirstWithPrefix(ports, "clk");
    var rst := FirstWithPrefix(ports, "rst");
    var stimulus := StimulusLines(clk, rst);
    var c := |ClockLines(clk)| + 1;
    TestbenchParts(moduleName, ports);
    FirstWithPrefixFinds(ports, "rst", k);
    StimulusReset(clk, rst);
    assert |ClockLines(clk)| == if clk.Some? then 2 else 0;
    SliceOfSecond(dut, stimulus, |dut| + c, |dut| + c + 5);
  }

  /** Without such a port there is no reset block: the UVM stub follows the clock block's blank line. */
  lemma TestbenchNoReset(moduleName: string, ports: seq<Port>)
    requires forall k :: 0 <= k < |ports| ==> !StartsWithIgnoringCase(ports[k].name, "rst")
    ensures var lines := TestbenchLines(moduleName, ports);
      var r := 2 * |ports| + 8 + (if FirstWithPrefix(ports, "clk").Some? then 2 else 0);
      |lines| > r && lines[r] == "    // Istanziazione del testbench UVM"
  {
    var clk := FirstWithPrefix(ports, "clk");
    var rst := FirstWithPrefix(ports, "rst");
    FirstWithPrefixNone(ports, "rst");
    TestbenchParts(moduleName, ports);
    StimulusReset(clk, rst);
  }

  /**
   * Whatever the module and its ports, the testbench opens with the timescale line and the head
   * of the testbench module, and closes with the same UVM stub and the end of the module.
   */
  lemma TestbenchFrame(moduleName: string, ports: seq<Port>)
    ensures var lines := TestbenchLines(moduleName, ports);
      && |lines| >= 8
      && lines[..2] == ["`timescale 1ns/1ps", "module " + moduleName + "_tb;\n"]
      && lines[|lines| - 6..] == UvmLines + ["endmodule\n"]
  {
    var dut := DutLines(moduleName, ports);
    var clk := FirstWithPrefix(ports, "clk");
    var rst := FirstWithPrefix(ports, "rst");
    var front := dut + (ClockLines(clk) + [""] + ResetLines(rst));
    assert TestbenchLines(moduleName, ports) == front + (UvmLines + ["endmodule\n"]);
    assert TestbenchLines(moduleName, ports)[..2] == dut[..2];
  }

  /** The joined text starts with the timescale line and ends with the end of the module. */
  lemma TestbenchTextFrame(moduleName: string, ports: seq<Port>)
    ensures var tb := JoinLines(TestbenchLines(moduleName, ports));
      "`timescale 1ns/1ps" <= tb && EndsWith(tb, "endmodule\n")
  {
    var lines := TestbenchLines(moduleName, ports);
    TestbenchFrame(moduleName, ports);
    JoinLinesEnds(lines);
    assert lines[0] == "`timescale 1ns/1ps";
    assert lines[|lines| - 1] == "endmodule\n";
  }

  /** Two lines per port, two for a clock, five for a reset, and fourteen that are always there. */
  lemma TestbenchLength(moduleName: string, ports: seq<Port>)
    ensures |TestbenchLines(moduleName, ports)| ==
      2 * |ports| + 14
      + (if exists k :: 0 <= k < |ports| && StartsWithIgnoringCase(ports[k].name, "clk") then 2 else 0)
      + (if exists k :: 0 <= k < |ports| && StartsWithIgnoringCase(ports[k].name, "rst") then 5 else 0)
  {
    FirstWithPrefixNone(ports, "clk");
    FirstWithPrefixNone(ports, "rst");
  }
}
