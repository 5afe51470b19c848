# EmployeeDirectory core in Dafny

This project models the core of the EmployeeDirectory program. The program reads a flat
list of employee records, each with an optional manager id. From that list it builds a
forest of employee nodes and checks two kinds of rules over that forest:

- a manager's salary against the average salary of their direct reports;
- the depth of each employee's reporting line.

The model follows the Java sources file by file.

- `model.dfy` (module `Model`): the `Employee` record and the tree node of
  `EmployeeNode.java`.
  - A node is a value (`Node`) stored in an arena, a map from employee id to node.
  - Parent and child links are ids into that map.
  - `addChild` and `setParent` become updates of the arena.
  - `getDepth` follows parent links. `Grounded` states that the chain reaches a root; the
    Java recursion never ends on a cycle.
- `tree.dfy` (module `Tree`): `EmployeeTree.java` without its printing code.
  - The class `EmployeeTree` has the source's two fields, `rootNodes` and
    `employeeNodeMap`.
  - `BuildTree` runs the two passes as two loops. It is proved equal to the function
    `Build`, which is pass 1 (`Index`) followed by pass 2 (`Link`, one `Place` per record).
  - `CollectSubordinates` is the recursive pre-order walk. It is proved equal to the
    function `Subordinates`.
- `build_properties.dfy` (module `BuildProperties`): what a build guarantees, proved
  against independent filters of the record list.
  - Which ids are indexed.
  - Which records become roots, including orphans.
  - Whose children are whose, in input order.
  - That every record is placed exactly once.
  - That, with unique ids, the parent and child links agree.
- `navigator_properties.dfy` (module `NavigatorProperties`): the subordinate walk lists
  exactly the nodes below a node, each once, never the node itself.
- `validator.dfy` (module `Validator`): `EmployeeValidator.java`.
  - The three rules are pure functions.
  - `calculateAverageSalary` and the two batch evaluators are loops, each proved equal to
    a specification function.
- `csv_reader.dfy` (module `CsvReader`): `CSVReader.java` over a list of lines.
  - Covers the header check, the blank-line skip, `split(",", -1)`, `trim` and the
    five-field parse.
  - Java's `Double.parseDouble` is a parameter `parse: string -> Option<real>`.
- `scenarios.dfy` (module `Scenarios`): the salary-rule cases of the validator tests,
  worked through the model.
- `wrappers.dfy` (module `Wrappers`): `Option` and `Result`.

Salaries are exact reals, so the factors 1.20 and 1.50 are 6/5 and 3/2. Java's `null`
manager id is `None`.

`ValidationResult` carries only `isValid`, `message` and `amount`. It has no subject
or kind field, so the model tells violations apart only by their message text.

## Model

| member | source | states |
|---|---|---|
| Model.NewNode | src/main/java/com/example/employeedirectory/model/EmployeeNode.java:14-17 | a new node holds its record, has no parent and no children, so it is both a root and a leaf |
| Model.Node.IsRoot | src/main/java/com/example/employeedirectory/model/EmployeeNode.java:52-54 | true exactly when the node has no parent; on a build with unique ids the roots are exactly such nodes (BuildProperties.BuildRootsParentless) |
| Model.Node.IsLeaf | src/main/java/com/example/employeedirectory/model/EmployeeNode.java:60-62 | true exactly when the node has no children; leaves add nothing to the salary report (Validator.LeavesAddNothing) |
| Model.GetChildren | src/main/java/com/example/employeedirectory/model/EmployeeNode.java:28-30 | the children handed out are the node's own child ids in the order they were added, and empty exactly when the node is a leaf; being a value, the copy cannot alias the node's own list |
| Model.SetParent | src/main/java/com/example/employeedirectory/model/EmployeeNode.java:33-35 | only the parent of the one node changes; every record and child list, and every other node, is unchanged |
| Model.AddChild | src/main/java/com/example/employeedirectory/model/EmployeeNode.java:41-46 | a missing child changes nothing; otherwise the child is appended last to the parent's children and its parent becomes this node, and no other child list and no other parent changes, so a previous parent keeps the child in its list |
| Model.GetDepth | src/main/java/com/example/employeedirectory/model/EmployeeNode.java:68-73 | on a chain that reaches a root, the depth is 0 exactly for a root and never exceeds the number of nodes |
| Model.DepthOfChild | src/main/java/com/example/employeedirectory/model/EmployeeNode.java:68-73 | a non-root node's parent is present, also reaches a root, and is exactly one level higher |
| Tree.ChildDepths | src/main/java/com/example/employeedirectory/model/EmployeeNode.java:68-73 | in a well-formed forest every child of a node is present and one level deeper than the node |
| Tree.Index | src/main/java/com/example/employeedirectory/EmployeeTree.java:29-33 | pass 1 indexes exactly the records' ids, each with a fresh node that has no parent and no children |
| Tree.Place | src/main/java/com/example/employeedirectory/EmployeeTree.java:37-53 | one step of pass 2 keeps the set of indexed ids and every node's record |
| Tree.Link | src/main/java/com/example/employeedirectory/EmployeeTree.java:36-54 | pass 2 keeps the set of indexed ids and every node's record |
| Tree.EmployeeTree.constructor | src/main/java/com/example/employeedirectory/EmployeeTree.java:15-18 | a new tree has no roots and an empty index |
| Tree.EmployeeTree.BuildTree | src/main/java/com/example/employeedirectory/EmployeeTree.java:24-55 | after the clear and the two loops, index and roots equal `Build(employees)`, whatever the earlier state was, and the employee count is the number of distinct ids |
| Tree.EmployeeTree.GetNodeById | src/main/java/com/example/employeedirectory/EmployeeTree.java:134-136 | returns a node iff the id is indexed, and then that id's node |
| Tree.EmployeeTree.GetRootNodes | src/main/java/com/example/employeedirectory/EmployeeTree.java:125-127 | returns the stored root ids in the order they were added, as many as the root count |
| Tree.EmployeeTree.GetAllNodes | src/main/java/com/example/employeedirectory/EmployeeTree.java:142-144 | returns exactly the ids `GetNodeById` finds, as many as the employee count |
| Tree.EmployeeTree.GetTotalEmployeeCount | src/main/java/com/example/employeedirectory/EmployeeTree.java:150-152 | the number of indexed ids, zero exactly when the index is empty; after a build it is the number of distinct record ids (BuildTree) |
| Tree.EmployeeTree.GetRootNodeCount | src/main/java/com/example/employeedirectory/EmployeeTree.java:158-160 | the length of the root list, zero exactly when there are no roots |
| Tree.EmployeeTree.GetDirectReports | src/main/java/com/example/employeedirectory/EmployeeTree.java:209-215 | returns nothing for an unknown id, otherwise the node's children |
| Tree.EmployeeTree.GetAllSubordinates | src/main/java/com/example/employeedirectory/EmployeeTree.java:222-229 | returns nothing for an unknown id, otherwise the pre-order walk `Subordinates` |
| Tree.EmployeeTree.CollectSubordinates | src/main/java/com/example/employeedirectory/EmployeeTree.java:236-241 | appends to the accumulator each child followed by that child's subordinates, in child order; terminates because depth grows on every call |
| Tree.Subordinates | src/main/java/com/example/employeedirectory/EmployeeTree.java:222-241 | the pre-order walk below an existing node; its meaning is proved in NavigatorProperties: exactly the nodes with the given one as a proper ancestor (SubordinatesMembers), each once (SubordinatesDistinct), never the node itself (NotOwnSubordinate) |
| BuildProperties.IndexLastWriteWins | src/main/java/com/example/employeedirectory/EmployeeTree.java:30-33 | the node of an id holds the last record with that id |
| BuildProperties.BuildIndex | src/main/java/com/example/employeedirectory/EmployeeTree.java:26-33 | after a build the node of each id holds the last record with that id, as the map overwrite leaves it |
| Tree.Build | src/main/java/com/example/employeedirectory/EmployeeTree.java:24-55 | the two passes of buildTree as a function of the records alone: the index holds exactly the records' ids, nothing of an earlier build, one node per distinct id; roots and children are characterised in BuildProperties (BuildRoots, BuildChildren, BuildParents, BuildPartition) |
| BuildProperties.UniqueIdCount | src/main/java/com/example/employeedirectory/EmployeeTree.java:150-152 | with unique ids the number of distinct ids, and so the employee count, equals the number of records |
| BuildProperties.BuildRoots | src/main/java/com/example/employeedirectory/EmployeeTree.java:40-51 | the roots are the records with no manager, an empty manager id or an unknown manager id, in input order |
| BuildProperties.RootPlacement | src/main/java/com/example/employeedirectory/EmployeeTree.java:40-51 | such a record is a root, even an orphan; with unique ids a record whose manager is present is not a root |
| BuildProperties.BuildChildren | src/main/java/com/example/employeedirectory/EmployeeTree.java:45-47 | a node's children are the records naming it as manager, in input order |
| BuildProperties.BuildParents | src/main/java/com/example/employeedirectory/EmployeeTree.java:36-53 | with unique ids a node's parent is its manager exactly when the record is not root material, and absent otherwise |
| BuildProperties.BuildPartition | src/main/java/com/example/employeedirectory/EmployeeTree.java:36-54 | roots plus all child lists hold each record's id once per record, so the roots and the attached children together number as many as the records |
| BuildProperties.BuildLinksAgree | src/main/java/com/example/employeedirectory/EmployeeTree.java:36-54 | with unique ids a child's parent is the node listing it and the reverse, no child list repeats an id, and the roots are exactly the parentless nodes, each once |
| BuildProperties.BuiltDepth | src/main/java/com/example/employeedirectory/EmployeeTree.java:45-47 | a record attached under its manager sits exactly one level below the manager |
| NavigatorProperties.WalkMembers | src/main/java/com/example/employeedirectory/EmployeeTree.java:236-241 | a node is in the walk of a sibling list exactly when its ancestor at the siblings' depth is one of them |
| NavigatorProperties.SubordinatesMembers | src/main/java/com/example/employeedirectory/EmployeeTree.java:236-241 | a node is among the subordinates exactly when one or more parent links lead from it to the given node |
| NavigatorProperties.NotOwnSubordinate | src/main/java/com/example/employeedirectory/EmployeeTree.java:236-241 | the subordinates never include the node itself |
| NavigatorProperties.SubordinatesDistinct | src/main/java/com/example/employeedirectory/EmployeeTree.java:236-241 | the subordinates list no node twice |
| NavigatorProperties.DirectReportsAreSubordinates | src/main/java/com/example/employeedirectory/EmployeeTree.java:209-241 | every direct report is a subordinate |
| NavigatorProperties.BuildWellFormed | src/main/java/com/example/employeedirectory/EmployeeTree.java:36-54 | a build from unique ids whose chains all end at a root is a well-formed forest, so the subordinate queries apply |
| NavigatorProperties.BuildChildrenPresent | src/main/java/com/example/employeedirectory/EmployeeTree.java:36-47 | every child id of every built node names an indexed node, duplicate ids included, so the salary batch can look up the reports of any built node |
| Validator.AverageWithin | src/main/java/com/example/employeedirectory/validation/EmployeeValidator.java:172-183 | the average of a non-empty list lies between any lower and upper bound of its salaries |
| Validator.CalculateAverageSalary | src/main/java/com/example/employeedirectory/validation/EmployeeValidator.java:172-183 | the loop's sum divided by the count is the average, 0 for no nodes |
| Validator.MinimumSalaryRule | src/main/java/com/example/employeedirectory/validation/EmployeeValidator.java:53-71 | no reports gives valid with amount 0; otherwise valid iff salary >= 1.20 times the average, boundary included; a failure is "Manager is underpaid" with a positive amount that exactly closes the gap to the floor |
| Validator.MaximumSalaryRule | src/main/java/com/example/employeedirectory/validation/EmployeeValidator.java:76-94 | no reports gives valid with amount 0; otherwise valid iff salary <= 1.50 times the average, boundary included; a failure is "Manager is overpaid" with a positive amount equal to the excess over the ceiling |
| Validator.SalaryRulesExclusive | src/main/java/com/example/employeedirectory/validation/EmployeeValidator.java:59-91 | with no negative report salary, a manager passes at least one of the two salary rules |
| Validator.ManagerSalaryResults | src/main/java/com/example/employeedirectory/validation/EmployeeValidator.java:123-142 | a leaf adds nothing; a manager adds exactly its failed rule results, at most two, the minimum rule's first; each is invalid with a positive amount |
| Validator.SalaryViolations | src/main/java/com/example/employeedirectory/validation/EmployeeValidator.java:117-145 | every result of the salary batch is invalid with a positive amount, at most two per node |
| Validator.SalaryViolationsConcat | src/main/java/com/example/employeedirectory/validation/EmployeeValidator.java:123-142 | the salary report keeps input node order: two lists in a row give the two reports in a row |
| Validator.LeavesAddNothing | src/main/java/com/example/employeedirectory/validation/EmployeeValidator.java:124 | a list of leaves gives an empty salary report |
| Validator.AtMostOneResultPerManager | src/main/java/com/example/employeedirectory/validation/EmployeeValidator.java:129-139 | with non-negative salaries each manager adds at most one salary result |
| Validator.SalaryViolationsBound | src/main/java/com/example/employeedirectory/validation/EmployeeValidator.java:117-145 | with non-negative salaries the salary report has at most one entry per node |
| Validator.ValidateAllManagerSalaries | src/main/java/com/example/employeedirectory/validation/EmployeeValidator.java:117-145 | the loop returns exactly `SalaryViolations` of the node list |
| Validator.ReportingDepthRule | src/main/java/com/example/employeedirectory/validation/EmployeeValidator.java:99-110 | valid with amount 0 iff depth <= 4; otherwise "Reporting line too deep" with amount depth - 4, at least 1, so depth 5 gives 1 |
| Validator.DeepNodes | src/main/java/com/example/employeedirectory/validation/EmployeeValidator.java:157-162 | holds exactly the listed nodes deeper than 4 |
| Validator.DepthViolations | src/main/java/com/example/employeedirectory/validation/EmployeeValidator.java:152-165 | every result of the depth batch is invalid with an amount of at least 1 |
| Validator.DepthViolationsOfDeepNodes | src/main/java/com/example/employeedirectory/validation/EmployeeValidator.java:152-165 | the depth report has exactly one entry per node deeper than 4, that node's result, in input order; an empty list gives an empty report |
| Validator.ValidateAllReportingDepths | src/main/java/com/example/employeedirectory/validation/EmployeeValidator.java:152-165 | the loop returns exactly `DepthViolations` of the node list |
| CsvReader.StartsWith | src/main/java/com/example/employeedirectory/CSVReader.java:27 | `s` begins with `prefix`; a header line with trailing text is accepted (HeaderPrefixAccepted) |
| CsvReader.Trim | src/main/java/com/example/employeedirectory/CSVReader.java:60-64 | Java's `String.trim`: the characters at or below U+0020 at both ends are dropped and no others (TrimMeaning, TrimIdempotent) |
| CsvReader.Split | src/main/java/com/example/employeedirectory/CSVReader.java:53 | `split(",", -1)`: at least one piece; the pieces joined with commas give the line back (JoinSplit), none holds a comma (SplitCommaFree), one more piece than commas (SplitCount) |
| CsvReader.TrimMeaning | src/main/java/com/example/employeedirectory/CSVReader.java:60-64 | trimming keeps a middle stretch of the text, drops only characters up to U+0020 around it, and leaves none at either end |
| CsvReader.TrimIdempotent | src/main/java/com/example/employeedirectory/CSVReader.java:60-64 | trimming twice is trimming once |
| CsvReader.TrimEmpty | src/main/java/com/example/employeedirectory/CSVReader.java:33 | a line is empty after trimming iff all its characters are at most U+0020 |
| CsvReader.SplitCommaFree | src/main/java/com/example/employeedirectory/CSVReader.java:53 | no piece of the split holds a comma |
| CsvReader.JoinSplit | src/main/java/com/example/employeedirectory/CSVReader.java:53 | joining the pieces with commas gives the line back, empty pieces included |
| CsvReader.SplitJoin | src/main/java/com/example/employeedirectory/CSVReader.java:53 | splitting comma-free pieces joined with commas gives the pieces back |
| CsvReader.SplitCount | src/main/java/com/example/employeedirectory/CSVReader.java:53-58 | there is one piece more than there are commas, trailing empty pieces kept |
| CsvReader.ManagerOf | src/main/java/com/example/employeedirectory/CSVReader.java:64-69 | the manager id is absent iff the field is empty after trimming, and otherwise the trimmed field |
| CsvReader.ParseEmployeeLine | src/main/java/com/example/employeedirectory/CSVReader.java:50-80 | a line is accepted iff it has exactly four commas and its trimmed salary piece parses, and the record is then the trimmed pieces with an empty manager id absent (ParseEmployeeLineMeaning, ParseFormatted) |
| CsvReader.ParseEmployeeLineMeaning | src/main/java/com/example/employeedirectory/CSVReader.java:50-80 | a line is accepted iff it has exactly four commas and its trimmed fourth piece parses; the record's fields are then the trimmed pieces |
| CsvReader.ParsedFieldsClean | src/main/java/com/example/employeedirectory/CSVReader.java:60-69 | an accepted record's text fields have no comma and nothing to trim, and a present manager id is not empty |
| CsvReader.ParseFormatted | src/main/java/com/example/employeedirectory/CSVReader.java:50-80 | a record written as five comma-separated fields is parsed back to itself when its fields are clean and the salary text parses to its salary |
| CsvReader.BlankLineRejected | src/main/java/com/example/employeedirectory/CSVReader.java:33 | a line that is blank after trimming would be rejected by the field parse as well |
| CsvReader.ParseLines | src/main/java/com/example/employeedirectory/CSVReader.java:32-39 | the data lines yield no more employees than there are lines |
| CsvReader.ParseLinesConcat | src/main/java/com/example/employeedirectory/CSVReader.java:32-39 | the employees keep line order: two runs of lines give the two results in a row |
| CsvReader.ParseOneLine | src/main/java/com/example/employeedirectory/CSVReader.java:32-39 | a single data line yields its record if it parses and nothing otherwise, so a bad salary drops only that line |
| CsvReader.ParsedFromSomeLine | src/main/java/com/example/employeedirectory/CSVReader.java:32-39 | every employee read is what some data line parses to |
| CsvReader.Read | src/main/java/com/example/employeedirectory/CSVReader.java:21-43 | no lines, or a first line not starting with the header, fails with the header message; otherwise the result is the data lines' employees |
| CsvReader.HeaderPrefixAccepted | src/main/java/com/example/employeedirectory/CSVReader.java:27 | a header line with trailing text is accepted |
| CsvReader.ReadEmployees | src/main/java/com/example/employeedirectory/CSVReader.java:21-43 | the header check and the while loop over the data lines return exactly `Read` of the lines |
| Scenarios.ReportsAverage | src/test/java/com/example/employeedirectory/validation/EmployeeValidatorTest.java:49-67 | reports on 40000 and 50000 average 45000 |
| Scenarios.UnderpaidScenario | src/test/java/com/example/employeedirectory/validation/EmployeeValidatorTest.java:49-67 | a manager on 50000 over those reports is underpaid by 4000 |
| Scenarios.OverpaidScenario | src/test/java/com/example/employeedirectory/validation/EmployeeValidatorTest.java:106-124 | a manager on 80000 over those reports is overpaid by 12500 |
| Scenarios.WellPaidMinimumScenario | src/test/java/com/example/employeedirectory/validation/EmployeeValidatorTest.java:28-47 | a manager on 60000 over those reports meets the minimum rule with the source's message and amount 0 |
| Scenarios.WellPaidMaximumScenario | src/test/java/com/example/employeedirectory/validation/EmployeeValidatorTest.java:85-103 | a manager on 60000 over those reports meets the maximum rule with the source's message and amount 0 |

## Left out

- Printing and logging are not modelled. This covers:
  - `printTree` and `printNode`;
  - the printing bodies of `EmployeeTree.validateManagerSalaries` and `printEmployeesWithMoreThan4Managers`;
  - every `System.err` warning in `buildTree` and `CSVReader`;
  - `ValidationReportService.java`;
  - `Main.java`.
- `EmployeeTree.calculateAverageSalary` (EmployeeTree.java:108-119) is the same loop as the validator's. Only the printing code calls it, so it is modelled once, as `Validator.CalculateAverageSalary`.
- File access is not modelled. `BufferedReader`/`FileReader` and the splitting of a file into lines are outside the model; `ReadEmployees` takes the lines, and an `IOException` from the file itself is not modelled.
- `Double.parseDouble` is the caller-supplied partial function `parse`. IEEE `double` rounding and the float products `avg * 1.20` and `avg * 1.50` are computed exactly over the reals.
- Salaries are reals, so `parse` cannot return the NaN or infinite values that `Double.parseDouble` yields for "NaN" or "Infinity" (CSVReader.java:63). Over doubles, a manager with a NaN salary fails both comparisons (EmployeeValidator.java:63 and :86), so `validateAllManagerSalaries` reports that manager as both underpaid and overpaid.
- Validator.SalaryRulesExclusive: holds over the reals only; over doubles a NaN manager salary breaks it, as the line above explains.
- `CSVReader`'s catch of any other `Exception` (CSVReader.java:76-78) is not modelled. The modelled parse cannot raise anything but the salary parse failure.
- HashMap iteration order is not modelled:
  - `GetAllNodes` returns the set of indexed ids;
  - the batch evaluators take their node order from the caller.
- Node objects and their references are modelled as values in the tree's id-keyed map, not as heap objects. `addChild`/`setParent` update that map rather than two objects in place. Two distinct node objects with the same id, which a duplicate id produces in the source, are not told apart: the map keeps the last one, which is also the one the second pass of `buildTree` uses.
- The validator's node lists are ids into an arena the caller supplies. Nodes linked by hand, as the validator tests do, are such an arena.
- Manager cycles are not modelled. On a cycle the source's `getDepth` and `collectSubordinates` recurse until the stack overflows. The model instead requires a chain that reaches a root (`Grounded`) or a well-formed forest (`WellFormed`).
- Tree.EmployeeTree.GetAllSubordinates: requires the whole index to be well formed when the id is present, where the source needs only that the part of the forest below that node is finite.
- Validator.ReportingDepthRule: requires the node's parent chain to reach a root, because the source's `getDepth` does not return otherwise.
- `Employee`'s setters are not modelled because none of the core calls them; `Employee` is an immutable datatype.
