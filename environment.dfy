/**
 * generate_uvm_environment, without the file writes: the map from file name to file text for
 * the UVM interface, driver, monitor and sequence of a parsed module.
 */
module Environment {
  import opened Text
  import opened Extractor
  import Testbench

  /** The signal of one port inside the interface. */
  function LogicLine(p: Port): string {
    "    logic " + p.width + " " + p.name + ";"
  }

  /** The interface: its head, one `logic` signal per port in order, and its end. */
  function InterfaceLines(moduleName: string, ports: seq<Port>): seq<string> {
    ["interface " + moduleName + "_if;"]
    + seq(|ports|, k requires 0 <= k < |ports| => LogicLine(ports[k]))
    + ["endinterface\n"]
  }

  // The driver, monitor and sequence are left for the user to implement: each is an empty class
  // deriving from its UVM base class.

  function DriverLines(moduleName: string): seq<string> {
    ["class " + moduleName + "_driver extends uvm_driver;", "    // Implementa il driver", "endclass\n"]
  }

  function MonitorLines(moduleName: string): seq<string> {
    ["class " + moduleName + "_monitor extends uvm_monitor;", "    // Implementa il monitor", "endclass\n"]
  }

  function SequenceLines(moduleName: string): seq<string> {
    ["class " + moduleName + "_sequence extends uvm_sequence;", "    // Implementa la sequenza", "endclass\n"]
  }

  function InterfaceFile(moduleName: string): string { moduleName + "_if.sv" }
  function DriverFile(moduleName: string): string { moduleName + "_driver.sv" }
  function MonitorFile(moduleName: string): string { moduleName + "_monitor.sv" }
  function SequenceFile(moduleName: string): string { moduleName + "_sequence.sv" }

  /** The four files of the environment, by name. */
  function EnvironmentFiles(moduleName: string, ports: seq<Port>): map<string, string> {
    map[InterfaceFile(moduleName) := JoinLines(InterfaceLines(moduleName, ports)),
        DriverFile(moduleName) := JoinLines(DriverLines(moduleName)),
        MonitorFile(moduleName) := JoinLines(MonitorLines(moduleName)),
        SequenceFile(moduleName) := JoinLines(SequenceLines(moduleName))]
  }

  /**
   * generate_uvm_environment: builds the interface lines in a loop, then stores each file's text
   * in the dictionary under its name, one entry after another.
   */
  method GenerateEnvironment(moduleName: string, ports: seq<Port>) returns (envFiles: map<string, string>)
    ensures envFiles == EnvironmentFiles(moduleName, ports)
  {
    envFiles := map[];

    var vifCode: seq<string> := [];
    vifCode := vifCode + ["interface " + moduleName + "_if;"];
    for i := 0 to |ports|
      invariant |vifCode| == i + 1 && vifCode[0] == "interface " + moduleName + "_if;"
      invariant forall k :: 0 <= k < i ==> vifCode[k + 1] == LogicLine(ports[k])
    {
      vifCode := vifCode + ["    logic " + ports[i].width + " " + ports[i].name + ";"];
    }
    vifCode := vifCode + ["endinterface\n"];
    assert vifCode == InterfaceLines(moduleName, ports);
    envFiles := envFiles[moduleName + "_if.sv" := JoinLines(vifCode)];

    var driverCode: seq<string> := [];
    driverCode := driverCode + ["class " + moduleName + "_driver extends uvm_driver;"];
    driverCode := driverCode + ["    // Implementa il driver"];
    driverCode := driverCode + ["endclass\n"];
    assert driverCode == DriverLines(moduleName);
    envFiles := envFiles[moduleName + "_driver.sv" := JoinLines(driverCode)];

    var monitorCode: seq<string> := [];
    monitorCode := monitorCode + ["class " + moduleName + "_monitor extends uvm_monitor;"];
    monitorCode := monitorCode + ["    // Implementa il monitor"];
    monitorCode := monitorCode + ["endclass\n"];
    assert monitorCode == MonitorLines(moduleName);
    envFiles := envFiles[moduleName + "_monitor.sv" := JoinLines(monitorCode)];

    var sequenceCode: seq<string> := [];
    sequenceCode := sequenceCode + ["class " + moduleName + "_sequence extends uvm_sequence;"];
    sequenceCode := sequenceCode + ["    // Implementa la sequenza"];
    sequenceCode := sequenceCode + ["endclass\n"];
    assert sequenceCode == SequenceLines(moduleName);
    envFiles := envFiles[moduleName + "_sequence.sv" := JoinLines(sequenceCode)];
  }

  /** The four file names differ (they have different lengths), so no entry overwrites another. */
  lemma EnvironmentHasFourFiles(moduleName: string, ports: seq<Port>)
    ensures var env := EnvironmentFiles(moduleName, ports);
      && env.Keys == {InterfaceFile(moduleName), DriverFile(moduleName), MonitorFile(moduleName), SequenceFile(moduleName)}
      && |env.Keys| == 4
  {
    var i, d, m, s := InterfaceFile(moduleName), DriverFile(moduleName), MonitorFile(moduleName), SequenceFile(moduleName);
    assert |i| < |d| < |m| < |s|;
    assert |{i, d, m, s}| == 4 by {
      assert {i, d, m, s} == {i} + {d} + {m} + {s};
    }
  }

  /** The driver, monitor and sequence files depend on the module name only, never on the ports. */
  lemma ShellsIgnorePorts(moduleName: string, ports: seq<Port>, others: seq<Port>)
    ensures var env := EnvironmentFiles(moduleName, ports);
      var env' := EnvironmentFiles(moduleName, others);
      && env.Keys == env'.Keys
      && env[DriverFile(moduleName)] == env'[DriverFile(moduleName)] == JoinLines(DriverLines(moduleName))
      && env[MonitorFile(moduleName)] == env'[MonitorFile(moduleName)] == JoinLines(MonitorLines(moduleName))
      && env[SequenceFile(moduleName)] == env'[SequenceFile(moduleName)] == JoinLines(SequenceLines(moduleName))
  {
    EnvironmentHasFourFiles(moduleName, ports);
    EnvironmentHasFourFiles(moduleName, others);
  }

  /** Line k + 1 of the interface is port k as a `logic` signal of its width; the head and end frame them. */
  lemma InterfaceDeclaresPorts(moduleName: string, ports: seq<Port>)
    ensures var lines := InterfaceLines(moduleName, ports);
      && |lines| == |ports| + 2
      && lines[0] == "interface " + moduleName + "_if;"
      && lines[|ports| + 1] == "endinterface\n"
      && forall k :: 0 <= k < |ports| ==> lines[k + 1] == "    logic " + ports[k].width + " " + ports[k].name + ";"
  {
  }

  /** A string ends with what was appended to it. */
  lemma EndsWithAppended(head: string, tail: string)
    ensures EndsWith(head + tail, tail)
  {
  }

  /** Line k + 1 of the interface is the signal of port k alone. */
  lemma InterfaceSignal(moduleName: string, ports: seq<Port>, k: nat)
    requires k < |ports|
    ensures k + 1 < |InterfaceLines(moduleName, ports)|
    ensures InterfaceLines(moduleName, ports)[k + 1] == LogicLine(ports[k])
  {
  }

  /**
   * The interface and the testbench agree on every signal: the interface line of port k and the
   * testbench declaration of port k end in the same width and name.
   */
  lemma InterfaceMatchesTestbench(moduleName: string, ports: seq<Port>, k: nat)
    requires k < |ports|
    ensures var tail := ports[k].width + " " + ports[k].name + ";";
      var vif := InterfaceLines(moduleName, ports)[k + 1];
      var decl := Testbench.TestbenchLines(moduleName, ports)[3 + k];
      EndsWith(vif, tail) && EndsWith(decl, tail)
  {
    var tail := ports[k].width + " " + ports[k].name + ";";
    InterfaceSignal(moduleName, ports, k);
    assert LogicLine(ports[k]) == "    logic " + tail;
    EndsWithAppended("    logic ", tail);
    Testbench.TestbenchDeclaration(moduleName, ports, k);
    var kind := if ports[k].dir == Input then "    reg " else "    wire ";
    assert Testbench.DeclLine(ports[k]) == kind + tail;
    EndsWithAppended(kind, tail);
  }
}
