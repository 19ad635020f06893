# Prisma engines: verified models

This project models the parts of the Prisma engines where most can go wrong, and proves what they keep. Names are
opaque ordered strings, and databases are abstract states. Every claim below is for all inputs of the model.

1. **Query graphs** (`QueryGraphs`, `GraphSwap`, `Expressionista`, `Scopes`, `Sources`, `Interpreter`, `Execution`,
   `Feeding`, `Arms`, `GraphResults`, `QueryGraphObject`): a graph of queries is rewritten in place, compiled to an expression and
   interpreted in a scoped environment. The documented invariant that parents are related, the scopes of compiled
   expressions, the order of execution, the queries that are executed and the returned result are connected.
2. **SQL migrations** (`Sql*`, `Sqlite*`, `ForeignKeyDelay`, `CalculatedTables`): the diff of two schemas, its steps, the SQLite rebuild,
   the delay of foreign keys, the reset on a changed id type, and the schema of a datamodel. Each step has a meaning on
   databases with rows; the steps are proved to reach the target exactly under a condition on the two schemas.
3. **Datamodel migrations** (`Datamodels`, `DatamodelSteps`, `DatamodelDiffer`, `*RoundTrip`, `ModelDirectives`,
   `DatamodelObjects`): the steps between two datamodels, and what applying them yields.
4. **Relations** (`Relations`, `BackRelations`, `Standardise`, `SchemaObject`, `RelationHolders`,
   `StandardisedRelations`): validation makes the pairing of relation fields unambiguous, standardisation completes it,
   and relations are calculated from it.
5. **Reading** (`Pagination`, `RecordTrimming`, `FilterConversion`, `FilterAliases`, `FilterReading`): cursors, order,
   skip, limit and trimming as a slice of an ordered list; filters as condition trees with aliased sub-selects.
6. **The migration log and two recursive checks** (`MigrationLog`, `MigrationRuns`, `MigrationEngine`, `InputValues`,
   `CustomTypes`).

Code that works in place is modelled by classes and loops that are proved against specification functions; the
properties are proved of those functions. Where a promise turned out not to hold for all inputs, a lemma whose name ends
in `Iff` gives the exact condition under which it holds, and others (mostly in `SqlWitnesses`, `StandardiseWitnesses`
and `RelationWitnesses`) inputs on which it fails.

Details of the code are kept even where its comments suggest otherwise: result children are removed from left to right
(query-engine/core/src/interpreter/expressionista.rs:52-58), an edge that is refused stays in the graph
(query-engine/core/src/query_graph/mod.rs:226-236), and the count of applied steps of a success is one less than the
steps (migration-engine/connectors/migration-connector/src/migration_applier.rs:66-74).

## Model

| member | source | states |
|---|---|---|
| `QueryGraphs.RelatedIffDirectParents` | query-engine/core/src/query_graph/mod.rs:304-314 | in an acyclic graph, all parents of each node are pairwise related if and only if every non-root node is a direct child of some parent; that parent is unique |
| `QueryGraphs.AncestorsFormChain` | query-engine/core/src/query_graph/mod.rs:104-118 | under that invariant, of two ancestors of a node one is an ancestor of the other |
| `QueryGraphs.DirectChildAncestors` | query-engine/core/src/query_graph/mod.rs:304-314 | the ancestors of a direct child are its parent and the ancestors of its parent: the scope tree |
| `QueryGraphs.SiblingsDisjoint` | query-engine/core/src/query_graph/mod.rs:330-343 | two direct children of a node have disjoint subgraphs |
| `QueryGraphs.RootsDisjoint` | query-engine/core/src/query_graph/mod.rs:195-209 | two roots have disjoint subgraphs |
| `Expressionista.RemoveEachPartitions` | query-engine/core/src/interpreter/expressionista.rs:44-56 | removing the result children position by position neither loses nor duplicates a child |
| `Expressionista.RemoveEachFits` | query-engine/core/src/interpreter/expressionista.rs:52-55 | the ascending removal panics exactly when its last position, after the shifts, is out of range |
| `Expressionista.SplitCorrectIffAtMostOne` | query-engine/core/src/interpreter/expressionista.rs:44-56 | the removal separates the result children from the others if and only if there is at most one |
| `Scopes.Runs` | query-engine/core/src/interpreter/interpreter.rs:82-209 | an expression whose names are bound where they are used, with exactly the nodes that come before a node in scope there, runs in any database and after any history without a failed lookup, executing each of its nodes at most once and after what must come before it |
| `Scopes.RunsFromNothing` | query-engine/core/src/interpreter/interpreter.rs:82-209 | the same for a whole program that starts in the empty environment |
| `Sources.RunReturnsSource` | query-engine/core/src/interpreter/interpreter.rs:82-209 | a program returns what the node that static analysis names as its source produced |
| `Execution.TranslationNested` | query-engine/core/src/interpreter/expressionista.rs:8-156 | the translation of every graph with the scope invariant binds each name where it is used; the names in scope where a node occurs are exactly its query ancestors; no node occurs twice; and if all nodes are queries, every node occurs where it is sure to run |
| `Execution.CompiledGraphRuns` | query-engine/core/src/interpreter/expressionista.rs:8-104 | running a translated graph never fails a lookup, runs no query twice, runs each after its query ancestors, and, if all nodes are queries and the run succeeds, runs every node |
| `Execution.AncestorRunsFirst` | query-engine/core/src/interpreter/interpreter.rs:93-136 | whenever a node runs, each query that is its ancestor has run before |
| `Feeding.EventsAreFed` | query-engine/core/src/interpreter/expressionista.rs:106-156 | in every run of a translated graph, each executed query is its node's content changed by the transformers of all the edges that bring parent ids into the node, in their order, each applied to the ids that its source produced earlier in the run, and gets what the database answers to that query at that point; a run fails only at a query the database refuses, a transformer that fails on such ids, or a source that produced none |
| `Arms.RunsExactlyChosen` | query-engine/core/src/interpreter/expressionista.rs:158-246 | in every run of a translated graph only queries run that lie, for each `If` node above them, below the last `Then` edge if its condition holds of what the last edge into it brings, and below the last `Else` edge otherwise; in a successful run all of these do |
| `GraphResults.TranslatesIff` | query-engine/core/src/interpreter/expressionista.rs:17-104 | a graph of queries compiles if and only if every removal of result children stays in range |
| `GraphResults.AllChildrenResultsPanic` | query-engine/core/src/interpreter/expressionista.rs:44-56 | compilation panics whenever a query has two direct children or more and all of their subgraphs hold results |
| `GraphResults.TwoResultsPanic` | query-engine/core/src/interpreter/expressionista.rs:44-56 | a concrete graph on which it does |
| `GraphResults.AnswerIsResult` | query-engine/core/src/interpreter/expressionista.rs:58-104 | if anything below a node is designated as result, the node whose result is returned is designated |
| `GraphResults.CompiledGraphReturns` | query-engine/core/src/interpreter/expressionista.rs:288-311 | with one root, a successful run returns what the answer node produced, and that is a designated result if there is any |
| `GraphSwap.SwapEffectIff` | query-engine/core/src/query_graph/mod.rs:448-503 | for every acyclic graph that keeps the rules for `If` nodes, swapping a query under its parent succeeds and has exactly the documented effect on the edges if and only if the edge indices collected before the removals do not go stale: not both is the first of several incoming edges of the parent from a flow node, and the last edge of the graph one of them |
| `GraphSwap.SwapAcyclicIff` | query-engine/core/src/query_graph/mod.rs:448-503 | the swap keeps the graph acyclic if and only if the child hangs directly under the parent |
| `GraphSwap.SwapRelatedIff` | query-engine/core/src/query_graph/mod.rs:448-503 | it then keeps all parents related if and only if, whenever a node hangs under both the parent and something below the child, the parent reaches that something without the child as well |
| `GraphSwap.SwapSimpleIff` | query-engine/core/src/query_graph/mod.rs:448-503 | it makes no duplicate edge if and only if the two nodes share no parent |
| `GraphSwap.SwapKeepsInvariantsIff` | query-engine/core/src/query_graph/mod.rs:382-503 | one swap whose indices do not go stale keeps all graph invariants if and only if these three conditions hold, and always makes the child an ancestor of the parent |
| `GraphSwap.SwapAllTopDown` | query-engine/core/src/query_graph/mod.rs:382-503 | swapping any list of marks that is processed top-down has the documented effect all the way if and only if the indices of the first marked parent do not go stale; it then succeeds, keeps all invariants, and ends with every marked child above its marked parent |
| `GraphSwap.StaleIndicesBreakInvariant` | query-engine/core/src/query_graph/mod.rs:458-470 | a concrete graph on which the indices go stale and the invariant that parents are related is lost |
| `QueryGraphObject.QueryGraph.CreateEdge` | query-engine/core/src/query_graph/mod.rs:226-236 | the edge is added, and is refused exactly when a rule is violated |
| `QueryGraphObject.QueryGraph.ConnectParents` | query-engine/core/src/query_graph/mod.rs:458-480 | the loop over collected edge indices does what the specification of the swap says |
| `QueryGraphObject.QueryGraph.SwapPair` | query-engine/core/src/query_graph/mod.rs:448-503 | one marked pair is swapped in place |
| `QueryGraphObject.QueryGraph.SwapMarked` | query-engine/core/src/query_graph/mod.rs:448-503 | all marked pairs are swapped, the last marked first, and the marks are gone |
| `QueryGraphObject.QueryGraph.Finalize` | query-engine/core/src/query_graph/mod.rs:152-160 | finalising twice is finalising once; with marks that can be processed top-down, and indices that do not go stale, it keeps all invariants and reverses all pairs |
| `QueryGraphObject.RemoveResultChildren` | query-engine/core/src/interpreter/expressionista.rs:52-55 | the loop that removes result children from a list that shrinks |
| `QueryGraphObject.QueryGraph.BuildExpression` | query-engine/core/src/interpreter/expressionista.rs:17-29 | compiles a subgraph as specified, finds every guard it unsets still full, and empties the guards of exactly that subgraph |
| `QueryGraphObject.QueryGraph.BuildQueryExpression` | query-engine/core/src/interpreter/expressionista.rs:31-104 | the same for a query node |
| `QueryGraphObject.QueryGraph.BuildEmptyFlowExpression` | query-engine/core/src/interpreter/expressionista.rs:158-246 | the same for an empty flow node |
| `QueryGraphObject.QueryGraph.BuildIfFlowExpression` | query-engine/core/src/interpreter/expressionista.rs:158-246 | the same for an if node |
| `QueryGraphObject.QueryGraph.Translate` | query-engine/core/src/interpreter/expressionista.rs:8-15 | translation terminates, never unsets an empty guard (second `unset` panics), and takes every node of a graph of queries out exactly once |
| `QueryGraphObject.MarkedChildrenRunFirst` | query-engine/core/src/query_graph/mod.rs:382-447 | from marks to execution: after top-down swaps and compilation, a marked parent never runs before its marked child |
| `SqlDatabases.RunTableByTable` | migration-engine/connectors/sql-migration-connector/src/sql_database_step_applier.rs:33-50 | a list of steps runs on a database as, for each table on its own, the steps of that table run; it succeeds exactly when they all do |
| `SqlChanges.ChangesColumnByColumn` | migration-engine/connectors/sql-migration-connector/src/sql_database_step_applier.rs:69-207 | the changes of an ALTER TABLE succeed exactly when each alone could, and touch only the columns, indexes and keys they name |
| `SqlDiffer.CreateTables` | migration-engine/connectors/sql-migration-connector/src/sql_schema_differ.rs:63-74 | the loop collects what the specification lists: the new tables, in order, without the migration table |
| `SqlDiffer.DropTables` | migration-engine/connectors/sql-migration-connector/src/sql_schema_differ.rs:76-87 | the loop collects what the specification lists: the tables that are gone |
| `SqlDiffer.DropColumns` | migration-engine/connectors/sql-migration-connector/src/sql_schema_differ.rs:112-123 | the loop collects what the specification lists: the columns that are gone |
| `SqlDiffer.AddColumns` | migration-engine/connectors/sql-migration-connector/src/sql_schema_differ.rs:125-136 | the loop collects what the specification lists: the new columns |
| `SqlDiffer.AlterColumns` | migration-engine/connectors/sql-migration-connector/src/sql_schema_differ.rs:138-161 | the loop collects what the specification lists: the columns that differ, foreign key columns not by arity |
| `SqlDiffer.CollectChanges` | migration-engine/connectors/sql-migration-connector/src/sql_schema_differ.rs:89-110 | the loop collects what the specification lists: foreign keys, drops, additions and alterations in this order |
| `SqlDiffer.AlterTables` | migration-engine/connectors/sql-migration-connector/src/sql_schema_differ.rs:89-110 | the loop collects what the specification lists: one step for each table that changes |
| `SqlDiffer.CreateIndexes` | migration-engine/connectors/sql-migration-connector/src/sql_schema_differ.rs:186-207 | the loop collects what the specification lists: the new indexes, without those that are renamed |
| `SqlDiffer.DropIndexes` | migration-engine/connectors/sql-migration-connector/src/sql_schema_differ.rs:209-243 | the loop collects what the specification lists: the indexes that are gone, without those that are renamed or cover the primary key |
| `SqlDiffer.DiffSchemas` | migration-engine/connectors/sql-migration-connector/src/sql_schema_differ.rs:50-61 | the loop collects what the specification lists: the whole diff |
| `SqlTableSteps.DiffTableByTable` | migration-engine/connectors/sql-migration-connector/src/sql_schema_differ.rs:24-61 | what a diff does to a table follows from the two descriptions of that table and the renames of indexes alone, for all schemas with unique table names |
| `SqlAlterations.AlterationRuns` | migration-engine/connectors/sql-migration-connector/src/sql_schema_differ.rs:89-184 | the alteration of a kept table succeeds exactly when MySQL lets go of every column it drops |
| `SqlTableMigration.KeptTableReaches` | migration-engine/connectors/sql-migration-connector/src/sql_schema_differ.rs:24-304 | the steps of a kept table lead to its next description if and only if the table is safe to migrate, and then keep its rows |
| `SqlMigration.DiffReachesNextIff` | migration-engine/connectors/sql-migration-connector/src/sql_schema_differ.rs:24-304 | on MySQL and Postgres, for all schemas with foreign keys of one column and every database that the first describes, running the diff succeeds and reaches the second if and only if every table is safe: MySQL lets go of dropped columns, no list column and no migration table is created, every wanted index is what an index on columns that are not rebuilt becomes, or is new under a name that no index of any table is renamed to, no two indexes are renamed alike, renamed indexes find their new names free, and no index that must go has the name of an index that is renamed |
| `SqlMigration.DiffKeepsRows` | migration-engine/connectors/sql-migration-connector/src/sql_schema_differ.rs:89-161 | every diff that runs keeps every row of a kept table, and every cell of a column that has the same type and refers to the same columns, or has the same type and arity and refers to none, in both schemas |
| `SqlMigration.AgreementNeedsNoStepsIff` | migration-engine/connectors/sql-migration-connector/src/sql_schema_differ.rs:50-61 | diffing a database that agrees with a schema against that schema yields no steps if and only if no table of the schema has two equivalent indexes |
| `SqlMigration.NoStepsIffAgrees` | migration-engine/connectors/sql-migration-connector/src/sql_schema_differ.rs:50-61 | a database agrees with a schema without equivalent indexes if and only if the diff is empty, no index keeps its name under other columns or type, and the migration table is not wanted without being there |
| `SqlMigration.MigratedOnceIsEnough` | migration-engine/connectors/sql-migration-connector/src/sql_schema_differ.rs:24-61 | after a migration, any description of the database needs no further steps if and only if the schema has no equivalent indexes |
| `SqlMigration.IndexOfRebuiltColumnIsLost` | migration-engine/connectors/sql-migration-connector/src/sql_schema_differ.rs:138-161 | a concrete schema on which changing the type of an indexed column loses the index |
| `SqlWitnesses.ChangedIndexIsKept` | migration-engine/connectors/sql-migration-connector/src/sql_schema_differ.rs:186-243 | a concrete pair of schemas in which an index keeps its name and changes its type: no step is made, and the old index stays |
| `SqlWitnesses.ExchangedNamesAreRefused` | migration-engine/connectors/sql-migration-connector/src/sql_schema_differ.rs:256-280 | a concrete table whose two indexes exchange their names, and whose first rename is refused |
| `SqlWitnesses.TwinIsRenamed` | migration-engine/connectors/sql-migration-connector/src/sql_schema_differ.rs:256-286 | a concrete table with two equivalent indexes of which one is to go: it is renamed to the other, which is there |
| `SqlWitnesses.TwinsAreNeverSettled` | migration-engine/connectors/sql-migration-connector/src/sql_schema_differ.rs:256-286 | a concrete schema with two equivalent indexes, whose diff against itself is not empty |
| `SqlWitnesses.SharedNameIsNotCreated` | migration-engine/connectors/sql-migration-connector/src/sql_schema_differ.rs:195-197 | two concrete tables that share an index name: the new index of one is not created because the other renames to its name |
| `SqlWitnesses.SharedNameIsNotRemoved` | migration-engine/connectors/sql-migration-connector/src/sql_schema_differ.rs:219-220 | and that of one is not removed because the other renames from its name |
| `SqlWitnesses.UnnamedForeignKeyStays` | migration-engine/connectors/sql-migration-connector/src/sql_schema_differ.rs:163-184 | a concrete table on MySQL whose foreign key has no name, so that its column cannot be dropped |
| `SqlWitnesses.ListIsNotCreated` | migration-engine/connectors/sql-migration-connector/src/sql_renderer/common.rs:4-12 | a concrete table with a list column, which is created as something else |
| `SqlWitnesses.MigrationTableIsNotCreated` | migration-engine/connectors/sql-migration-connector/src/sql_schema_differ.rs:63-74 | a schema with the migration table, which is not created |
| `SqliteFix.RebuildRuns` | migration-engine/connectors/sql-migration-connector/src/sql_database_migration_inferrer.rs:269-336 | the statements of a table rebuild have the effect of the rebuild in one step, and leave no temporary table |
| `SqliteFix.ExpandRunsIff` | migration-engine/connectors/sql-migration-connector/src/sql_database_migration_inferrer.rs:204-240 | the same for a whole list of steps in which any tables are rebuilt; it fails exactly where a table has the temporary name of a rebuilt one when its turn comes |
| `SqliteFix.SqliteFixTable` | migration-engine/connectors/sql-migration-connector/src/sql_database_migration_inferrer.rs:258-267 | the statements that rebuild one table, or an error if a schema lacks it |
| `SqliteFix.FixStupidSqlite` | migration-engine/connectors/sql-migration-connector/src/sql_database_migration_inferrer.rs:204-240 | the loop that rebuilds each table once where its changes need it |
| `SqliteMigration.DiffIsCorrected` | migration-engine/connectors/sql-migration-connector/src/sql_database_migration_inferrer.rs:204-267 | the correction of a diff never misses a table |
| `SqliteMigration.SqliteReachesNextIff` | migration-engine/connectors/sql-migration-connector/src/sql_database_migration_inferrer.rs:204-336 | on SQLite, for every diff and every contents, the corrected steps reach the next schema, each index present once, if and only if every table altered without a rebuild gets one column, has its wanted indexes provided and the others removed, every rebuilt table keeps a column and no table of the next schema has its temporary name, and no list column and no migration table is created |
| `SqliteMigration.SqliteKeepsRows` | migration-engine/connectors/sql-migration-connector/src/sql_database_migration_inferrer.rs:269-336 | every kept table, rebuilt or not, then keeps its row count and the cells of all columns common to both schemas |
| `SqlWitnesses.TwoNewColumnsAreRefused` | migration-engine/connectors/sql-migration-connector/src/sql_database_migration_inferrer.rs:204-240 | a concrete table on SQLite that gets two columns without a rebuild |
| `SqlWitnesses.NothingToCopyIsRefused` | migration-engine/connectors/sql-migration-connector/src/sql_database_migration_inferrer.rs:269-336 | a concrete table whose rebuild has no column to copy |
| `SqlWitnesses.TakenTemporaryNameIsRefused` | migration-engine/connectors/sql-migration-connector/src/sql_database_migration_inferrer.rs:269-336 | a concrete table `T` that is rebuilt beside a table `new_T` |
| `ForeignKeyDelay.ColumnsDoneLater` | migration-engine/connectors/sql-migration-connector/src/sql_database_migration_inferrer.rs:161-202 | the loop over the columns of a created table finds those that are added later |
| `ForeignKeyDelay.DelayForeignKeyCreation` | migration-engine/connectors/sql-migration-connector/src/sql_database_migration_inferrer.rs:161-202 | the loop over created tables delays those columns |
| `ForeignKeyDelay.DelayedRunsAlike` | migration-engine/connectors/sql-migration-connector/src/sql_database_migration_inferrer.rs:157-202 | the delayed steps do exactly what the undelayed ones do, on every database |
| `ForeignKeyDelay.DelayedLinksExistIff` | migration-engine/connectors/sql-migration-connector/src/sql_database_migration_inferrer.rs:157-202 | going by the names of tables, every foreign key is brought in only when the table it refers to exists if and only if the undelayed columns refer to their own or earlier tables |
| `ForeignKeyDelay.DelayedLinksAreInDatabase` | migration-engine/connectors/sql-migration-connector/src/sql_database_migration_inferrer.rs:157-202 | said of the running database: under that condition, after each step that brings a foreign key in, the table it refers to is in the database, whichever database and family; and if all steps run, only under that condition |
| `SqlWitnesses.KeyRefersTooEarly` | migration-engine/connectors/sql-migration-connector/src/sql_database_migration_inferrer.rs:161-202 | a concrete table whose undelayed foreign key refers to a later table |
| `SqlInference.FixIdColumnTypeChange` | migration-engine/connectors/sql-migration-connector/src/sql_database_migration_inferrer.rs:102-155 | the steps are replaced by a reset if a column of a primary key changes its type |
| `SqlInference.StartsOverIff` | migration-engine/connectors/sql-migration-connector/src/sql_database_migration_inferrer.rs:102-136 | for all schemas, this is so if and only if a table of both has a column in its current primary key whose type differs between them |
| `SqlInference.InferredKeepsRows` | migration-engine/connectors/sql-migration-connector/src/sql_database_migration_inferrer.rs:83-155 | on MySQL and Postgres, for every database, the inferred steps, if they run, keep every row of every kept table and its cells in columns that stay the same, unless a primary key column changes its type; then the migration table keeps its rows and every other table ends empty |
| `SqlInference.InferDatabaseMigrationSteps` | migration-engine/connectors/sql-migration-connector/src/sql_database_migration_inferrer.rs:83-100 | the original and the corrected steps of each family |
| `SqlInference.ResetReachesIff` | migration-engine/connectors/sql-migration-connector/src/sql_database_migration_inferrer.rs:102-155 | a reset reaches the next schema if and only if no list column is created and the migration table has no other indexes |
| `SqlWitnesses.ResetLeavesIndex` | migration-engine/connectors/sql-migration-connector/src/sql_database_migration_inferrer.rs:102-155 | a concrete database in which a reset leaves an index of the migration table behind |
| `SqlInference.InferredReachesIff` | migration-engine/connectors/sql-migration-connector/src/sql_database_migration_inferrer.rs:83-155 | the inferred steps reach the next schema if and only if the diff does or, where a primary key column changes its type, the reset does |
| `SqlInference.InferredOnceIsEnoughIff` | migration-engine/connectors/sql-migration-connector/src/sql_database_migration_inferrer.rs:83-100 | on every family, nothing more is inferred once the schema is reached, if and only if it has no equivalent indexes |
| `SqlCalculator.AddInlineRelations` | migration-engine/connectors/sql-migration-connector/src/sql_schema_calculator.rs:187-226 | the loops that add the columns of inline relations to the tables of models |
| `SqlCalculator.CalculateRelationTables` | migration-engine/connectors/sql-migration-connector/src/sql_schema_calculator.rs:228-281 | the loop that makes a table of each many-to-many relation |
| `CalculatedTables.CalculatesIff` | migration-engine/connectors/sql-migration-connector/src/sql_schema_calculator.rs:19-281 | a schema is calculated if and only if every model has an id, its scalar fields have a supported type and its index definitions name fields, each inline relation names a column of its model, and the ids that tables refer to have a supported type |
| `CalculatedTables.CalculatedTablesAre` | migration-engine/connectors/sql-migration-connector/src/sql_schema_calculator.rs:19-43 | the schema has one table for each model, in order, then one for each scalar list and one for each many-to-many relation, and no other, with their columns by name |
| `CalculatedTables.ModelTableIs` | migration-engine/connectors/sql-migration-connector/src/sql_schema_calculator.rs:45-128 | the table of a model has one column for each scalar field that is no list, with its database name, type, arity and default, and one for each relation inlined in it; its key is the first id field; its indexes are one for each unique field and one for each definition; its foreign keys are the inline relations |
| `CalculatedTables.InlineRelationIs` | migration-engine/connectors/sql-migration-connector/src/sql_schema_calculator.rs:187-226 | an inline relation has the arity of its field and the type of the id it refers to, which is that of the model at the other end |
| `CalculatedTables.ListTableIs` | migration-engine/connectors/sql-migration-connector/src/sql_schema_calculator.rs:130-185 | the table of a scalar list has a node that refers to the id of its model, a position, and a value of the type of the field |
| `CalculatedTables.RelationTableIs` | migration-engine/connectors/sql-migration-connector/src/sql_schema_calculator.rs:228-281 | the table of a many-to-many relation has a column A that refers to the id of model A and a column B that refers to that of model B, and pairs are unique |
| `CalculatedTables.TypedIff` | migration-engine/connectors/sql-migration-connector/src/sql_schema_calculator.rs:423-451 | which column type and arity a field has, and that decimals and relations have none |
| `SqlCalculator.CalculatedIsLayered` | migration-engine/connectors/sql-migration-connector/src/sql_schema_calculator.rs:19-281 | in every calculated schema, the tables of models come first and have their links delayed, and the others refer only to them |
| `SqlCalculator.CalculatedIsClosed` | migration-engine/connectors/sql-migration-connector/src/sql_schema_calculator.rs:19-281 | all its foreign keys refer to its own tables |
| `SqlCalculator.CalculatedLinksExist` | migration-engine/connectors/sql-migration-connector/src/sql_schema_calculator.rs:19-43 | so every migration to a calculated schema with distinct table names brings each foreign key in only when its table is in the database, even for tables that refer to each other |
| `SqlCalculator.CalculatedHasNoLists` | migration-engine/connectors/sql-migration-connector/src/sql_schema_calculator.rs:423-441 | and creates no list column as something else |
| `DirectiveRoundTrip.DirectivesRoundTrip` | migration-engine/core/src/migration/datamodel_differ.rs:212-367 | the steps between two lists of directives with distinct names lead from the first to the second |
| `ModelDirectives.ModelDirectivesRoundTrip` | migration-engine/core/src/migration/datamodel_differ.rs:130-153 | the same for the directives of a model, where repeated ones are told apart by their arguments |
| `ModelDirectives.CreatedDirectivesIff` | migration-engine/core/src/migration/datamodel_differ.rs:103-118 | a new model gets its directives if and only if at most one directive of each name has arguments |
| `FieldRoundTrip.FieldByField` | migration-engine/core/src/migration/datamodel_calculator.rs:36-61 | steps on different fields, and on the directives of the model, do not interfere |
| `DatamodelRoundTrip.TopByTop` | migration-engine/core/src/migration/datamodel_calculator.rs:28-61 | steps on different models and enums do not interfere |
| `DatamodelRoundTrip.DiffTopByTop` | migration-engine/core/src/migration/datamodel_differ.rs:20-30 | what a diff does to a model or enum follows from its two versions alone |
| `DatamodelRoundTrip.DiffRoundTripIff` | migration-engine/core/src/migration/datamodel_differ.rs:20-375 | applying the diff of any two datamodels to the first never fails, leaves what is neither model nor enum alone, and yields the models and enums of the second if and only if on every new model at most one directive of each name has arguments |
| `DatamodelRoundTrip.TwoUniquesAreMixedUp` | migration-engine/core/src/migration/datamodel_calculator.rs:379-387 | a concrete new model whose two directives are mixed up |
| `DatamodelObjects.SchemaAst.ApplyStep` | migration-engine/core/src/migration/datamodel_calculator.rs:36-61 | one step on the tree, in place; a failing step leaves the tree as it was |
| `DatamodelSteps.StepDoes` | migration-engine/core/src/migration/datamodel_calculator.rs:63-439 | for every tree and every step, when the step is refused, and what it does otherwise: what is created is appended, what is updated stays in its place with its new name, type, arity, values, directives or arguments and the rest of it unchanged, and what is deleted is gone from an otherwise unchanged list |
| `DatamodelObjects.SchemaAst.Apply` | migration-engine/core/src/migration/datamodel_calculator.rs:28-34 | all steps, stopping at the first failure |
| `DatamodelObjects.SchemaAst.Migrate` | migration-engine/core/src/migration/datamodel_calculator.rs:20-34 | inferring and applying in place gives the next datamodel under the exact condition above |
| `DatamodelObjects.StepList.PushAll` | migration-engine/core/src/migration/datamodel_differ.rs:20-367 | the nested loops over enums, models, fields, directives and arguments push exactly the diff, in order |
| `Relations.ValidateRelationsNotAmbiguous` | libs/datamodel/src/validator/validate.rs:144-212 | the nested loops accept a model if and only if no two of its relation fields, nor three of a self relation, can be confused |
| `Relations.OppositeIsInvolution` | libs/datamodel/src/dml/model.rs:98-121 | where all fields are paired, the related field exists, and its related field is the field itself |
| `BackRelations.FindMissingBackRelationFields` | libs/datamodel/src/validator/standardise.rs:276-324 | the loop finds the relation fields without an opposite |
| `BackRelations.AddMissing` | libs/datamodel/src/validator/standardise.rs:223-274 | the loops add their opposites, unless a name is taken |
| `BackRelations.AddingSucceedsIff` | libs/datamodel/src/validator/standardise.rs:223-274 | adding the missing fields succeeds if and only if no name of an added field is taken, by a field of the model or by another added one |
| `BackRelations.BackRelationsPair` | libs/datamodel/src/validator/standardise.rs:223-324 | on every validated datamodel, the missing fields can be added if and only if each of their names is free in its model and none is needed twice there, and then all relation fields end up in pairs |
| `BackRelations.OppositeIsKeptOrMade` | libs/datamodel/src/validator/standardise.rs:276-324 | a relation field that had an opposite keeps it; one that had none then has one that is a list if the field is none and else optional, is generated, holds no reference, belongs to the same relation and is named after the model of the field |
| `BackRelations.OnlyOppositesAdded` | libs/datamodel/src/validator/standardise.rs:223-274 | every model keeps its fields and ids, and gets no other fields than these |
| `Standardise.MapPaired` | libs/datamodel/src/validator/standardise.rs:25-39 | a change that treats opposites alike keeps all pairs |
| `Standardise.SidesAreChosen` | libs/datamodel/src/validator/standardise.rs:41-92 | what the user set stays; otherwise the side opposite a list, or of two singles that of the lesser model or field, refers to the id of the other model and the other side to nothing; so a reference is set on exactly one side of a 1:1 or 1:n relation and on both sides of n:m, if and only if each side that is to hold one finds an id to refer to |
| `Standardise.NamingIsComplete` | libs/datamodel/src/validator/standardise.rs:326-386 | the loop over unnamed relations names those with a reference, each on both sides, and nothing else |
| `Standardise.CrowdedNamingPanics` | libs/datamodel/src/validator/standardise.rs:326-356 | on fields that are not paired, naming panics whenever more relations are to be named from one model to another than the other has unnamed fields back |
| `Standardise.NamingKeepsPairsIff` | libs/datamodel/src/validator/standardise.rs:326-386 | naming keeps all fields paired if and only if no model has two fields to the same model, one unnamed and one with the default name |
| `Standardise.StandardisedIsCompleteIff` | libs/datamodel/src/validator/standardise.rs:25-39 | every validated datamodel standardises if and only if no name of an added field is taken; then all relations are named if and only if each unnamed one has a reference or an id on a side that it would refer to, and all fields are paired if and only if no relation between two models has the default name beside an unnamed one that gets it |
| `Standardise.StandardisedSides` | libs/datamodel/src/validator/standardise.rs:25-92 | opposites share their name in the end, stay opposites unless names clash, and refer to the id of the other model on the side or sides that hold the reference, which finds one if and only if there are ids |
| `StandardiseWitnesses.TakenDefaultName` | libs/datamodel/src/validator/standardise.rs:326-386 | a concrete validated datamodel in which a relation called `AToB` and an unnamed one both end as `AToB`, so that fields have no definite opposite |
| `StandardiseWitnesses.RelationModelWithoutId` | libs/datamodel/src/validator/validate.rs:55-59 | a concrete one with a relation model, which needs no id, whose relation stays without a reference and a name |
| `StandardiseWitnesses.SameNameTwice` | libs/datamodel/src/validator/standardise.rs:240-252 | models with two relations that need opposites of one name, which is refused |
| `StandardiseWitnesses.AmbiguousDatamodelPanics` | libs/datamodel/src/validator/validation_pipeline.rs:60-74 | a concrete datamodel that validation refuses and whose standardisation, which is done all the same, panics |
| `SchemaObject.Schema.SetRelationToFieldToIdIfMissing` | libs/datamodel/src/validator/standardise.rs:41-92 | the indexed loops that set references in place |
| `SchemaObject.Schema.NameUnnamed` | libs/datamodel/src/validator/standardise.rs:326-357 | the loop that names relations in place |
| `SchemaObject.Schema.Standardise` | libs/datamodel/src/validator/standardise.rs:25-39 | the whole standardisation in place: it fails exactly if a name of an added field is taken, and else pairs and names all relations exactly under the conditions above |
| `RelationHolders.SameFromEitherSide` | prisma-models/src/datamodel_converter.rs:119-226 | a relation has the same sides, fields and manifestation whichever of its two fields it is discovered from |
| `RelationHolders.KeptWhereSingle` | prisma-models/src/datamodel_converter.rs:176-218 | a relation is kept in a table of its own exactly if both sides are lists, and else in a column on a side that is no list: the one with a reference if just one of two has it, that of the lesser model, or that of the greater field of a self relation |
| `RelationHolders.RefusedIffBothInline` | prisma-models/src/datamodel_converter.rs:195-218 | discovery panics exactly on a 1:1 relation whose sides both hold a reference |
| `RelationHolders.HolderIsForItsFields` | prisma-models/src/datamodel_converter.rs:278-290 | a relation is for its two fields and no other, which are on different sides |
| `RelationHolders.CalculatedUnlessBothInline` | prisma-models/src/datamodel_converter.rs:119-232 | relations are calculated unless there is such a 1:1 relation |
| `RelationHolders.CalculatedAreDiscovered` | prisma-models/src/datamodel_converter.rs:119-232 | every calculated relation is discovered from some field |
| `RelationHolders.OneRelationPerFieldIff` | prisma-models/src/datamodel_converter.rs:119-232 | every relation field belongs to exactly one calculated relation, on one side, opposite its opposite, if and only if different relations have different names |
| `RelationWitnesses.BothInlineIsRefused` | prisma-models/src/datamodel_converter.rs:195-218 | a concrete 1:1 relation with references on both sides, which is refused |
| `RelationWitnesses.OneNameForTwoRelations` | prisma-models/src/datamodel_converter.rs:119-232 | three concrete models with two relations of one name, of which one is lost |
| `StandardisedRelations.StandardisedInOneIff` | prisma-models/src/datamodel_converter.rs:119-232 | from the datamodel that a user writes: after standardisation, every relation field belongs to exactly one calculated relation if and only if the relations, called by their given or default names, have different names and the user set no references on both sides of a 1:1 relation; unless names clash, relations are refused exactly in that last case |
| `StandardisedRelations.DistinctDoNotClash` | libs/datamodel/src/validator/standardise.rs:326-386 | and relations of different names never clash when they are named |
| `RelationHolders.CalculateRelations` | prisma-models/src/datamodel_converter.rs:119-232 | the nested loops and the deduplication by name |
| `Pagination.OrderingMeans` | query-engine/connectors/sql-query-connector/src/ordering.rs:46-82 | the order terms give the natural order of rows, or exactly its reverse |
| `Pagination.CursorsMean` | query-engine/connectors/sql-query-connector/src/cursor_condition.rs:15-81 | the cursor condition selects the rows strictly between the cursors in the natural order, and none if a cursor is no row |
| `Pagination.AnySortIsOrdered` | query-engine/connectors/sql-query-connector/src/ordering.rs:46-82 | whichever way the database sorts by these terms, the result is the same |
| `Pagination.AnswerIsRequestedIff` | query-engine/connectors/sql-query-connector/src/query_builder/read/mod.rs:44-76 | for every table, filter, cursors, order, skip, first and last, what is fetched and trimmed is the requested slice of the rows strictly between the cursors if and only if it is not cut by a `first` beside `last` |
| `Pagination.FirstBesideLastIsWrong` | query-engine/core/src/response_ir/utils.rs:6-17 | a concrete table on which it is |
| `Pagination.WindowFetchesAlikeIff` | query-engine/connectors/query-connector/src/query_arguments.rs:26-46 | row numbers within the window limits fetch the same rows as skip and limit, unless the rows are cut only by the end of the window |
| `Pagination.WindowEndCutsRows` | query-engine/connectors/query-connector/src/query_arguments.rs:26-46 | a result with one row more than there are row numbers, which is cut without a limit |
| `Pagination.PageSplitsRemaining` | query-engine/connectors/sql-query-connector/src/cursor_condition.rs:38-59 | a page is the first rows after the cursor, and the id of its last row is the cursor to exactly the rest |
| `Pagination.PagesAreFull` | query-engine/core/src/response_ir/utils.rs:12-16 | every page has n rows, but for the last, which has some |
| `Pagination.PagingEnumerates` | query-engine/connectors/sql-query-connector/src/cursor_condition.rs:38-59 | asking for n rows after the last id of the page before terminates and yields every row exactly once, in order |
| `RecordTrimming.Records.DropLeft` | query-engine/core/src/response_ir/utils.rs:25-29 | drops records at the start, by two reversals |
| `RecordTrimming.Records.TrimRecords` | query-engine/core/src/response_ir/utils.rs:6-17 | trims the fetched records in place |
| `RecordTrimming.Paginate` | query-engine/connectors/sql-query-connector/src/query_builder/read/mod.rs:44-76 | fetching and trimming in place give the requested slice under the exact condition |
| `FilterConversion.ConversionKeepsMeaning` | query-engine/connectors/sql-query-connector/src/filter_conversion.rs:85-275 | every filter in which, below the first relation, no relation filter is part of a larger nested filter selects the same records as its condition tree |
| `FilterConversion.RelationMeans` | query-engine/connectors/sql-query-connector/src/filter_conversion.rs:178-201 | a comparison with the sub-select of a relation filter means what the filter does, for each of the four conditions |
| `FilterConversion.SelMeans` | query-engine/connectors/sql-query-connector/src/filter_conversion.rs:203-275 | the sub-select returns exactly the links whose other side matches or, for every-related, fails to |
| `FilterConversion.NullMeans` | query-engine/connectors/sql-query-connector/src/filter_conversion.rs:277-306 | the check for a missing relation holds exactly of records without a link |
| `FilterAliases.WellScopedIff` | query-engine/connectors/sql-query-connector/src/filter_conversion.rs:178-275 | every alias of a converted filter resolves if and only if each relation filter inside a larger nested one has a joined record one level up |
| `FilterAliases.ConvertibleIsResolvable` | query-engine/connectors/sql-query-connector/src/filter_conversion.rs:178-275 | so those of all filters above resolve |
| `FilterAliases.AliasesFreshIff` | query-engine/connectors/sql-query-connector/src/filter_conversion.rs:27-65 | no alias is used again inside its own select if and only if there is no check for a missing relation, kept in a table of its own, below a relation filter |
| `FilterAliases.SkippedLevelIsUnresolved` | query-engine/connectors/sql-query-connector/src/filter_conversion.rs:178-275 | a concrete filter with an alias that does not resolve |
| `FilterAliases.NullCheckReusesAlias` | query-engine/connectors/sql-query-connector/src/filter_conversion.rs:277-306 | a concrete filter whose check for a missing relation uses an alias again |
| `FilterAliases.DeepFilterIsLost` | query-engine/connectors/sql-query-connector/src/filter_conversion.rs:180-186 | a concrete filter and database where a relation filter deeper inside a nested filter is compared with the wrong record |
| `FilterReading.ConversionReads` | query-engine/connectors/sql-query-connector/src/filter_conversion.rs:178-275 | every filter whose aliases resolve selects the records that it means when each relation filter inside a larger nested filter is read as starting from the record one level up |
| `FilterReading.ConvertibleIsReadRight` | query-engine/connectors/sql-query-connector/src/filter_conversion.rs:178-275 | and for the filters above both readings agree |
| `MigrationLog.RunsAreOrderly` | migration-engine/connectors/migration-connector/src/migration_applier.rs:16-88 | after every run of apply and unapply commands with any step failures, revisions ascend, every record went along the allowed statuses only, a success ran all n steps once and in order with `applied` n-1 (0 when empty), a failure at step k ran the k steps before it with `applied` k, and rollbacks likewise |
| `MigrationLog.SuccessesAreStack` | migration-engine/connectors/sql-migration-connector/src/sql_migration_persistence.rs:82-90 | over every run the successful migrations are a stack that applying pushes to and rolling back pops, and `last` is its top |
| `MigrationLog.ExecuteIsStackStep` | migration-engine/core/src/commands/unapply_migration.rs:27-48 | each command is a push, a pop or nothing on that stack |
| `MigrationLog.MigrateTraces` | migration-engine/connectors/migration-connector/src/migration_applier.rs:66-88 | what a migration executes and writes, seen from any revision |
| `MigrationRuns.CommandsAreRecorded` | migration-engine/core/src/commands/apply_migration.rs:83-136 | after every run, for every accepted command, the record of its revision has its name, steps and rollback; exactly its steps up to its own failure ran forward, and exactly its rollback up to the failure of the unapply command that popped it ran backward, or nothing if none did |
| `MigrationRuns.ChangesNothingIff` | migration-engine/core/src/commands/apply_migration.rs:112-127 | a command leaves the state as it is if and only if it has warnings and no force, or there is no successful migration to roll back |
| `MigrationEngine.Engine.Last` | migration-engine/connectors/sql-migration-connector/src/sql_migration_persistence.rs:82-90 | finds the successful migration of the highest revision |
| `MigrationEngine.Engine.Update` | migration-engine/connectors/sql-migration-connector/src/sql_migration_persistence.rs:147-167 | writes to the record of that name and revision, and to no other |
| `MigrationEngine.Engine.Go` | migration-engine/connectors/migration-connector/src/migration_applier.rs:66-88 | the loops that execute steps and record progress leave the executed steps, the count and the writes in the closed form |
| `MigrationEngine.Engine.Apply` | migration-engine/connectors/migration-connector/src/migration_applier.rs:17-39 | applies a pending migration and records its outcome |
| `MigrationEngine.Engine.Unapply` | migration-engine/connectors/migration-connector/src/migration_applier.rs:41-62 | rolls a successful migration back and records its outcome |
| `MigrationEngine.Engine.ApplyMigration` | migration-engine/core/src/commands/apply_migration.rs:83-136 | warnings without force change nothing; otherwise the migration is stored and applied |
| `MigrationEngine.Engine.UnapplyMigration` | migration-engine/core/src/commands/unapply_migration.rs:27-48 | rolls back the last migration, if there is one, and reports it and the one active then |
| `MigrationEngine.Engine.LoadCurrentWatchMigrations` | migration-engine/connectors/migration-connector/src/migration_persistence.rs:54-69 | the longest run of watch migrations at the end of the log |
| `InputValues.ParsesIffConforms` | query-engine/core/src/query_document/parser.rs:148-168 | for every value and every type, recursive or not, parsing terminates and succeeds if and only if the value conforms: null only under optional, single values lifted to lists, no unknown fields, missing fields optional or defaulted |
| `InputValues.ParsedFits` | query-engine/core/src/query_document/parser.rs:148-168 | what is parsed has the shape of the type, given well-typed defaults: dates, JSON and UUIDs are readable as such, and a text of id type is a UUID if and only if it is readable as one |
| `InputValues.ParsedCarries` | query-engine/core/src/query_document/parser.rs:148-200 | and says what the value says: numbers, texts and names unchanged, floats cut to integers, items in order, entries under their keys |
| `InputValues.EntriesFit` | query-engine/core/src/query_document/parser.rs:218-290 | every given entry is parsed under its own key |
| `InputValues.MissingAreDefaults` | query-engine/core/src/query_document/parser.rs:239-257 | what is added are the defaults of the fields that are not given, each once, and no others |
| `CustomTypes.RecursiveIffCyclic` | libs/datamodel/src/validator/lift.rs:162-220 | for every schema, resolution terminates, and fails for recursion if and only if the custom types of a name come back to one of them |
| `CustomTypes.ResolvedByEnd` | libs/datamodel/src/validator/lift.rs:162-220 | otherwise the end of the chain decides: unknown, a model behind a custom type, or its type with the directives of the chain, innermost first |
| `CustomTypes.AcyclicEnds` | libs/datamodel/src/validator/lift.rs:162-220 | and there is such an end |
| `CustomTypes.LiftedTypes` | libs/datamodel/src/validator/lift.rs:162-179 | a scalar name is that scalar, any other name of a model that model, and any other of an enum that enum, whatever custom types there are; nothing else is resolved to them, and a model is the type of its own name only |
| `CustomTypes.TypeLifter.LiftFieldType` | libs/datamodel/src/validator/lift.rs:162-179 | the resolution with its list of checked types, in place |
| `CustomTypes.TypeLifter.ResolveCustomType` | libs/datamodel/src/validator/lift.rs:181-220 | the same for a name that is no type by itself |

## Left out

- Logging, connections, transactions, asynchronous execution, HTTP, JSON-RPC and the command line: plumbing without a property of its own.
- petgraph: nodes and edges are indices into lists, and removal moves the last edge into the gap, as petgraph does.
- Closures on query graph edges: they are data, and what a database answers is an arbitrary function of the query and the history.
- Guards are modelled as sets of emptied indices of nodes and edges, not as cells.
- The rule that forbids unrelated parents is commented out in the source (query-engine/core/src/query_graph/invariance_rules.rs:54-90); it is a predicate here, and the theorems that need it require it.
- Execution.TranslationNested: requires that parent ids are taken from queries (`ParentIdsFromQueries`) and that the children of an `If` hang directly under it (`IfChildrenDirect`), which the rules of the source do not check.
- Execution.CompiledGraphRuns: requires the same, and says which nodes run in which order; Feeding.EventsAreFed says with what content, and Arms.RunsExactlyChosen which arms.
- Feeding.EventsAreFed: requires the same.
- Arms.RunsExactlyChosen: requires the same.
- Scopes.Runs: is about the nodes of any expression that is scoped well, and not about the contents of queries, which Feeding.EventsAreFed gives for translated graphs.
- Scopes.RunsFromNothing: is about the same.
- Sources.RunReturnsSource: says which node is the source of the result, and not with what content it ran.
- Execution.AncestorRunsFirst: requires the same.
- Foreign keys of several columns, and several foreign keys on one column: `ForeignKeysDistinct` excludes them.
- GraphSwap.SwapEffectIff: requires the rules for `If` nodes and a query as the marked child.
- Enums, sequences, column defaults, raw types and auto-increment: the SQL differ does not compare them.
- Violations of NOT NULL, unique and foreign key constraints by rows, and tables that cannot be dropped because others refer to them.
- An index name that another table uses already: Postgres and SQLite refuse it, and the model does not.
- An index over several columns of which one is dropped: MySQL keeps it on the others, and the model drops it on every family.
- Rolling a schema migration back: its steps are inferred with the two schemas exchanged, and run on a database that agrees with the second schema but need not be as it describes, which the theorems do not cover.
- ForeignKeyDelay.DelayedLinksExistIff: requires foreign keys that refer to tables of the schema; SqlCalculator.CalculatedIsClosed proves this of calculated schemas.
- The destructive-change checker: warnings are an input of the commands.
- Spans, documentation, default values and the text of expressions in datamodels; rendering and parsing an expression is taken to give it back.
- The order of models, fields and directives after a datamodel migration.
- The names of added relation fields: inflection is an arbitrary function.
- The relations of a datamodel as input of the schema calculator are its own, with the hypotheses of `SqlCalculator.Valid`; columns, indexes and defaults are not part of the datamodels of standardisation.
- Standardise.StandardisedIsCompleteIff: requires a validated datamodel, although the source standardises refused ones too, before it reports the errors; Standardise.CrowdedNamingPanics says of those when naming surely panics, not exactly when.
- SchemaObject.Schema.Standardise: requires the same.
- Relation tables and embedded types in standardisation, which the source does not reach.
- Negative skip, first and last, and null values in the column that a query orders by.
- Pages of related records for many parents at once; each parent has its own listing.
- Three-valued logic: comparisons with null select nothing, links have no nulls, and a scalar filter is an arbitrary test of a value.
- FilterConversion.ConversionKeepsMeaning: holds one way only, because a filter outside the condition can by chance mean the same; FilterReading.ConversionReads says what such a filter means instead, and FilterAliases.DeepFilterIsLost that it need not be the same.
- Crashes between two writes to the migration log, and concurrent commands.
- GoForward and GoBackward are one method with a direction, because the source has the same loop twice.
- The datamodels that a migration command infers: they are not part of the log.
- Dates, JSON and UUIDs: which texts are readable is a set of the schema. Field names of an input object are unique.
