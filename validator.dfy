/**
 * The rule engine of validation/EmployeeValidator.java: two salary rules
 * and a depth rule, each a pure function to a `ValidationResult`, and two
 * batch evaluators that loop over a list of nodes and keep only the
 * failures.
 *
 * Nodes are named by id into an arena (see module Model); the caller
 * supplies the order of the node list. Salaries are exact reals, so the
 * factors 1.20 and 1.50 are 6/5 and 3/2.
 */
module Validator {
  import opened Model

  /** A rule's verdict; `amount` is the violation's size, 0 when valid. */
  datatype ValidationResult = ValidationResult(isValid: bool, message: string, amount: real)

  /** A manager must earn at least this multiple of the reports' average. */
  const MinFactor: real := 6.0 / 5.0

  /** A manager may earn at most this multiple of the reports' average. */
  const MaxFactor: real := 3.0 / 2.0

  /** The deepest acceptable reporting depth. */
  const MaxDepth: nat := 4

  const NoReportsMessage: string := "No direct reports to validate"
  const MinMetMessage: string := "Manager meets minimum salary requirement"
  const UnderpaidMessage: string := "Manager is underpaid"
  const MaxMetMessage: string := "Manager meets maximum salary requirement"
  const OverpaidMessage: string := "Manager is overpaid"
  const DepthOkMessage: string := "Acceptable reporting depth"
  const TooDeepMessage: string := "Reporting line too deep"

  /** The sum of the nodes' salaries. */
  function SalaryTotal(nodes: seq<Node>): real
  {
    if nodes == [] then 0.0
    else SalaryTotal(nodes[..|nodes| - 1]) + nodes[|nodes| - 1].employee.salary
  }

  /** The mean salary of the nodes, 0 for no nodes. */
  function AverageSalary(nodes: seq<Node>): real
  {
    if nodes == [] then 0.0 else SalaryTotal(nodes) / (|nodes| as real)
  }

  /** Every salary among the nodes lies in `[lo, hi]`. */
  predicate SalariesWithin(nodes: seq<Node>, lo: real, hi: real)
  {
    forall i | 0 <= i < |nodes| :: lo <= nodes[i].employee.salary <= hi
  }

  /** Bounds on the salaries bound their sum. */
  lemma {:induction false} TotalWithin(nodes: seq<Node>, lo: real, hi: real)
    requires SalariesWithin(nodes, lo, hi)
    ensures (|nodes| as real) * lo <= SalaryTotal(nodes) <= (|nodes| as real) * hi
  {
    if nodes != [] {
      var init := nodes[..|nodes| - 1];
      assert SalariesWithin(init, lo, hi) by {
        forall i | 0 <= i < |init| ensures lo <= init[i].employee.salary <= hi {
          assert init[i] == nodes[i];
        }
      }
      TotalWithin(init, lo, hi);
      var n := |init| as real;
      assert (n + 1.0) * lo == n * lo + lo;
      assert (n + 1.0) * hi == n * hi + hi;
    }
  }

  /** The average lies between the smallest and the largest possible salary. */
  lemma AverageWithin(nodes: seq<Node>, lo: real, hi: real)
    requires nodes != []
    requires SalariesWithin(nodes, lo, hi)
    ensures lo <= AverageSalary(nodes) <= hi
  {
    TotalWithin(nodes, lo, hi);
    var n := |nodes| as real;
    var t := SalaryTotal(nodes);
    assert AverageSalary(nodes) * n == t;
  }

  /** calculateAverageSalary: sum in a loop, then divide by the count. */
  method CalculateAverageSalary(nodes: seq<Node>) returns (average: real)
    ensures average == AverageSalary(nodes)
  {
    if |nodes| == 0 {
      return 0.0;
    }
    var totalSalary := 0.0;
    for i := 0 to |nodes|
      invariant totalSalary == SalaryTotal(nodes[..i])
    {
      assert nodes[..i + 1][..i] == nodes[..i];
      totalSalary := totalSalary + nodes[i].employee.salary;
    }
    assert nodes[..|nodes|] == nodes;
    average := totalSalary / (|nodes| as real);
  }

  /** The minimum salary rule: at least 1.20 times the reports' average, boundary included. */
  function MinimumSalaryRule(manager: Employee, reports: seq<Node>): (r: ValidationResult)
    ensures reports == [] ==> r == ValidationResult(true, NoReportsMessage, 0.0)
    ensures reports != [] ==> (r.isValid <==> manager.salary >= MinFactor * AverageSalary(reports))
    ensures reports != [] && r.isValid ==> r.message == MinMetMessage
    ensures r.isValid ==> r.amount == 0.0
    ensures !r.isValid ==> r.message == UnderpaidMessage && r.amount > 0.0
    ensures !r.isValid ==> manager.salary + r.amount == MinFactor * AverageSalary(reports)
  {
    if reports == [] then ValidationResult(true, NoReportsMessage, 0.0)
    else
      var minRequiredSalary := AverageSalary(reports) * MinFactor;
      if manager.salary >= minRequiredSalary then ValidationResult(true, MinMetMessage, 0.0)
      else ValidationResult(false, UnderpaidMessage, minRequiredSalary - manager.salary)
  }

  /** The maximum salary rule: at most 1.50 times the reports' average, boundary included. */
  function MaximumSalaryRule(manager: Employee, reports: seq<Node>): (r: ValidationResult)
    ensures reports == [] ==> r == ValidationResult(true, NoReportsMessage, 0.0)
    ensures reports != [] ==> (r.isValid <==> manager.salary <= MaxFactor * AverageSalary(reports))
    ensures reports != [] && r.isValid ==> r.message == MaxMetMessage
    ensures r.isValid ==> r.amount == 0.0
    ensures !r.isValid ==> r.message == OverpaidMessage && r.amount > 0.0
    ensures !r.isValid ==> manager.salary - r.amount == MaxFactor * AverageSalary(reports)
  {
    if reports == [] then ValidationResult(true, NoReportsMessage, 0.0)
    else
      var maxAllowedSalary := AverageSalary(reports) * MaxFactor;
      if manager.salary <= maxAllowedSalary then ValidationResult(true, MaxMetMessage, 0.0)
      else ValidationResult(false, OverpaidMessage, manager.salary - maxAllowedSalary)
  }

  /** With no negative report salary, a manager fails at most one of the two salary rules. */
  lemma SalaryRulesExclusive(manager: Employee, reports: seq<Node>)
    requires forall i | 0 <= i < |reports| :: reports[i].employee.salary >= 0.0
    ensures MinimumSalaryRule(manager, reports).isValid || MaximumSalaryRule(manager, reports).isValid
  {
    if reports != [] {
      var hi := SalaryTotal(reports);
      assert SalariesWithin(reports, 0.0, hi) by {
        forall i | 0 <= i < |reports| ensures reports[i].employee.salary <= hi {
          TotalBoundsEach(reports, i);
        }
      }
      AverageWithin(reports, 0.0, hi);
    }
  }

  /** One non-negative salary is at most the sum of all of them. */
  lemma {:induction false} TotalBoundsEach(nodes: seq<Node>, i: nat)
    requires forall k | 0 <= k < |nodes| :: nodes[k].employee.salary >= 0.0
    requires i < |nodes|
    ensures 0.0 <= nodes[i].employee.salary <= SalaryTotal(nodes)
  {
    var init := nodes[..|nodes| - 1];
    assert forall k | 0 <= k < |init| :: init[k] == nodes[k];
    if i < |init| {
      TotalBoundsEach(init, i);
    } else {
      NonNegativeTotal(init);
    }
  }

  /** Non-negative salaries have a non-negative sum. */
  lemma {:induction false} NonNegativeTotal(nodes: seq<Node>)
    requires forall k | 0 <= k < |nodes| :: nodes[k].employee.salary >= 0.0
    ensures SalaryTotal(nodes) >= 0.0
  {
    if nodes != [] {
      var init := nodes[..|nodes| - 1];
      assert forall k | 0 <= k < |init| :: init[k] == nodes[k];
      NonNegativeTotal(init);
    }
  }

  /** The report nodes that `node.getChildren()` yields for the node `m`. */
  function Reports(a: Arena, m: string): (rs: seq<Node>)
    requires m in a && ChildrenPresent(a)
    ensures |rs| == |a[m].children|
    ensures forall i | 0 <= i < |rs| :: rs[i] == a[a[m].children[i]]
  {
    seq(|a[m].children|, i requires 0 <= i < |a[m].children| => a[a[m].children[i]])
  }

  /**
   * What one node adds to the salary report: nothing for a leaf; otherwise
   * each failed rule's result, the minimum rule's first.
   */
  function ManagerSalaryResults(a: Arena, m: string): (rs: seq<ValidationResult>)
    requires m in a && ChildrenPresent(a)
    ensures a[m].IsLeaf() ==> rs == []
    ensures |rs| <= 2
    ensures forall r | r in rs :: !r.isValid && r.amount > 0.0
    ensures !a[m].IsLeaf() ==>
      var min := MinimumSalaryRule(a[m].employee, Reports(a, m));
      var max := MaximumSalaryRule(a[m].employee, Reports(a, m));
      (min in rs <==> !min.isValid) && (max in rs <==> !max.isValid) &&
      (forall r | r in rs :: r == min || r == max) &&
      (|rs| == 2 ==> rs[0] == min && rs[1] == max)
  {
    if a[m].IsLeaf() then []
    else
      var directReports := Reports(a, m);
      var minResult := MinimumSalaryRule(a[m].employee, directReports);
      var maxResult := MaximumSalaryRule(a[m].employee, directReports);
      (if minResult.isValid then [] else [minResult]) + (if maxResult.isValid then [] else [maxResult])
  }

  /** validateAllManagerSalaries as a function: the nodes' contributions in input order. */
  function SalaryViolations(a: Arena, ids: seq<string>): (rs: seq<ValidationResult>)
    requires forall k | k in ids :: k in a
    requires ChildrenPresent(a)
    ensures forall r | r in rs :: !r.isValid && r.amount > 0.0
    ensures |rs| <= 2 * |ids|
  {
    if ids == [] then []
    else
      var last := ids[|ids| - 1];
      SalaryViolations(a, ids[..|ids| - 1]) + ManagerSalaryResults(a, last)
  }

  /** The salary report of two node lists in a row is the two reports in a row. */
  lemma {:induction false} SalaryViolationsConcat(a: Arena, xs: seq<string>, ys: seq<string>)
    requires forall k | k in xs + ys :: k in a
    requires ChildrenPresent(a)
    ensures SalaryViolations(a, xs + ys) == SalaryViolations(a, xs) + SalaryViolations(a, ys)
    decreases |ys|
  {
    if ys != [] {
      var init := ys[..|ys| - 1];
      assert (xs + ys)[..|xs + ys| - 1] == xs + init;
      SalaryViolationsConcat(a, xs, init);
    } else {
      assert xs + ys == xs;
    }
  }

  /** Leaves add nothing to the salary report. */
  lemma {:induction false} LeavesAddNothing(a: Arena, ids: seq<string>)
    requires forall k | k in ids :: k in a && a[k].IsLeaf()
    requires ChildrenPresent(a)
    ensures SalaryViolations(a, ids) == []
  {
    if ids != [] {
      LeavesAddNothing(a, ids[..|ids| - 1]);
    }
  }

  /** No report in the arena earns a negative salary. */
  predicate NonNegativeSalaries(a: Arena)
  {
    forall k | k in a :: a[k].employee.salary >= 0.0
  }

  /** With non-negative salaries each manager adds at most one salary result. */
  lemma AtMostOneResultPerManager(a: Arena, m: string)
    requires m in a && ChildrenPresent(a)
    requires NonNegativeSalaries(a)
    ensures |ManagerSalaryResults(a, m)| <= 1
  {
    if !a[m].IsLeaf() {
      var reports := Reports(a, m);
      forall i | 0 <= i < |reports| ensures reports[i].employee.salary >= 0.0 {
        assert a[m].children[i] in a[m].children;
      }
      SalaryRulesExclusive(a[m].employee, reports);
    }
  }

  /** With non-negative salaries the salary report has at most one entry per node. */
  lemma {:induction false} SalaryViolationsBound(a: Arena, ids: seq<string>)
    requires forall k | k in ids :: k in a
    requires ChildrenPresent(a)
    requires NonNegativeSalaries(a)
    ensures |SalaryViolations(a, ids)| <= |ids|
  {
    if ids != [] {
      SalaryViolationsBound(a, ids[..|ids| - 1]);
      AtMostOneResultPerManager(a, ids[|ids| - 1]);
    }
  }

  /** One more node extends the salary report by that node's contribution. */
  lemma SalaryStep(a: Arena, ids: seq<string>, i: nat)
    requires forall k | k in ids :: k in a
    requires ChildrenPresent(a)
    requires i < |ids|
    ensures ids[i] in a
    ensures SalaryViolations(a, ids[..i + 1]) == SalaryViolations(a, ids[..i]) + ManagerSalaryResults(a, ids[i])
  {
    assert ids[i] in ids;
    assert ids[..i + 1][..i] == ids[..i];
  }

  /** validateAllManagerSalaries: both salary rules for every manager, failures only. */
  method ValidateAllManagerSalaries(a: Arena, employeeNodes: seq<string>)
    returns (results: seq<ValidationResult>)
    requires forall k | k in employeeNodes :: k in a
    requires ChildrenPresent(a)
    ensures results == SalaryViolations(a, employeeNodes)
  {
    results := [];
    for i := 0 to |employeeNodes|
      invariant results == SalaryViolations(a, employeeNodes[..i])
    {
      var node := employeeNodes[i];
      SalaryStep(a, employeeNodes, i);
      ghost var before := results;
      if !a[node].IsLeaf() {
        var directReports := Reports(a, node);
        if directReports != [] {
          var manager := a[node].employee;
          var minResult := MinimumSalaryRule(manager, directReports);
          if !minResult.isValid {
            results := results + [minResult];
          }
          var maxResult := MaximumSalaryRule(manager, directReports);
          if !maxResult.isValid {
            results := results + [maxResult];
          }
        }
      }
      assert results == before + ManagerSalaryResults(a, node);
    }
    assert employeeNodes[..|employeeNodes|] == employeeNodes;
  }

  /** The depth rule: valid iff the node is at most four links below its root. */
  function ReportingDepthRule(a: Arena, id: string): (r: ValidationResult)
    requires Grounded(a, id)
    ensures r.isValid <==> GetDepth(a, id) <= MaxDepth
    ensures r.isValid ==> r == ValidationResult(true, DepthOkMessage, 0.0)
    ensures !r.isValid ==> r.message == TooDeepMessage && r.amount >= 1.0
    ensures !r.isValid ==> r.amount + (MaxDepth as real) == GetDepth(a, id) as real
  {
    var depth := GetDepth(a, id);
    if depth <= MaxDepth then ValidationResult(true, DepthOkMessage, 0.0)
    else ValidationResult(false, TooDeepMessage, (depth - MaxDepth) as real)
  }

  /** The listed nodes deeper than the limit, in list order. */
  function DeepNodes(a: Arena, ids: seq<string>): (deep: seq<string>)
    requires forall k | k in ids :: Grounded(a, k)
    ensures forall x :: x in deep <==> x in ids && GetDepth(a, x) > MaxDepth
  {
    if ids == [] then []
    else
      var last := ids[|ids| - 1];
      assert ids == ids[..|ids| - 1] + [last];
      DeepNodes(a, ids[..|ids| - 1]) + (if GetDepth(a, last) > MaxDepth then [last] else [])
  }

  /** validateAllReportingDepths as a function: the failed depth results in input order. */
  function DepthViolations(a: Arena, ids: seq<string>): (rs: seq<ValidationResult>)
    requires forall k | k in ids :: Grounded(a, k)
    ensures forall r | r in rs :: !r.isValid && r.amount >= 1.0
  {
    if ids == [] then []
    else
      var last := ids[|ids| - 1];
      var r := ReportingDepthRule(a, last);
      DepthViolations(a, ids[..|ids| - 1]) + (if r.isValid then [] else [r])
  }

  /** The depth report has one entry per deep node, that node's result, in order. */
  lemma {:induction false} DepthViolationsOfDeepNodes(a: Arena, ids: seq<string>)
    requires forall k | k in ids :: Grounded(a, k)
    ensures |DepthViolations(a, ids)| == |DeepNodes(a, ids)|
    ensures forall i | 0 <= i < |DeepNodes(a, ids)| ::
      DepthViolations(a, ids)[i] == ReportingDepthRule(a, DeepNodes(a, ids)[i])
  {
    if ids != [] {
      var init := ids[..|ids| - 1];
      assert forall k | k in init :: k in ids;
      DepthViolationsOfDeepNodes(a, init);
    }
  }

  /** validateAllReportingDepths: the depth rule for every node, failures only. */
  method ValidateAllReportingDepths(a: Arena, employeeNodes: seq<string>)
    returns (results: seq<ValidationResult>)
    requires forall k | k in employeeNodes :: Grounded(a, k)
    ensures results == DepthViolations(a, employeeNodes)
  {
    results := [];
    for i := 0 to |employeeNodes|
      invariant results == DepthViolations(a, employeeNodes[..i])
    {
      assert employeeNodes[..i + 1][..i] == employeeNodes[..i];
      assert employeeNodes[i] in employeeNodes;
      var result := ReportingDepthRule(a, employeeNodes[i]);
      if !result.isValid {
        results := results + [result];
      }
    }
    assert employeeNodes[..|employeeNodes|] == employeeNodes;
  }
}
