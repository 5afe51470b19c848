/**
 * The salary rule cases of the validator tests: a manager over two reports
 * earning 40000 and 50000, so the reports average 45000.
 */
module Scenarios {
  import opened Wrappers
  import opened Model
  import opened Validator

  /** The two direct reports of the sample manager. */
  function SampleReports(): seq<Node>
  {
    [NewNode(Employee("2", "Alice", "Sub", 40000.0, Some("1"))),
     NewNode(Employee("3", "Bob", "Sub", 50000.0, Some("1")))]
  }

  /** Their average salary is 45000. */
  lemma ReportsAverage()
    ensures AverageSalary(SampleReports()) == 45000.0
  {
    var rs := SampleReports();
    assert rs[..1][..0] == [];
    assert SalaryTotal(rs[..1]) == 40000.0;
    assert rs[..|rs| - 1] == rs[..1];
  }

  /** A manager on 50000 is 4000 short of the 54000 floor. */
  lemma UnderpaidScenario()
    ensures MinimumSalaryRule(Employee("1", "John", "Manager", 50000.0, None), SampleReports())
         == ValidationResult(false, UnderpaidMessage, 4000.0)
  {
    ReportsAverage();
  }

  /** A manager on 80000 is 12500 over the 67500 ceiling. */
  lemma OverpaidScenario()
    ensures MaximumSalaryRule(Employee("1", "John", "Manager", 80000.0, None), SampleReports())
         == ValidationResult(false, OverpaidMessage, 12500.0)
  {
    ReportsAverage();
  }

  /** A manager on 60000 clears the 54000 floor. */
  lemma WellPaidMinimumScenario()
    ensures MinimumSalaryRule(Employee("1", "John", "Manager", 60000.0, None), SampleReports())
         == ValidationResult(true, MinMetMessage, 0.0)
  {
    ReportsAverage();
  }

  /** A manager on 60000 stays under the 67500 ceiling. */
  lemma WellPaidMaximumScenario()
    ensures MaximumSalaryRule(Employee("1", "John", "Manager", 60000.0, None), SampleReports())
         == ValidationResult(true, MaxMetMessage, 0.0)
  {
    ReportsAverage();
  }
}
