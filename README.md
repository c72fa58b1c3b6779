# LDVSOFT assignments, modelled in Dafny

This project models the core of a set of Java course assignments and proves properties of the model:

- **Function1, Function2, Predicate**: small functional-programming classes (composition, binding, currying, lazy `or`/`and`, `not`).
- **Collections**: `map`, `filter`, `takeWhile`, `takeUnless`, `foldl` and `foldr` over iterables.
- **StringSetImpl**: a trie of strings with per-node counts, answering `howManyStartsWithPrefix`.
- **TreeSetImpl**: an ordered set kept as a treap (split/merge), with its in-order iterator.
- **Injector**: a dependency injector that picks one implementation per requested type and builds the object graph recursively, detecting cycles and ambiguity.
- **GameServerImpl**: a game server that numbers connections "0", "1", … and routes `sendTo`/`broadcast`. It configures its game from properties through setter calls.
- **SumTwoNumbersGame and QuizGame**: the two games.

Modules and files:

| file | module | models |
|---|---|---|
| `wrappers.dfy` | `Wrappers` | `Option` and `Result` |
| `functions.dfy` | `Function1`, `Function2`, `Predicate` | a Java function object as a partial arrow `-->`; its `requires` is where `apply` returns normally |
| `collections.dfy` | `Collections` | loops as methods over `seq` |
| `stringset.dfy` | `StringSet` | the trie as an arena of parallel sequences |
| `treeset.dfy` | `Treap` | the treap as an arena of `TreapNode` records indexed by reference, with a ghost `Tree` it represents |
| `injector.dfy` | `Injector` | reflection replaced by an explicit universe of classes |
| `javatext.dfy` | `JavaText` | `Integer.toString`, `Integer.decode`, 32-bit bounds, `Character.toUpperCase` and `indexOf` as the games use them |
| `protocol.dfy` | `Protocol` | the two calls a game makes on the server |
| `gameserver.dfy` | `GameServer` | the server's registry |
| `sumgame.dfy` | `SumGame` | the sum game |
| `quiz.dfy` | `Quiz` | the quiz game |

Games record what they ask the server to send in an `outbox`. Randomness (operands, treap priorities), the dictionary file and the ticker threads are inputs.

In these points the model follows what the Java code does:

- `!start` does not reset the question index: the reset is commented out at QuizGame.java:128. A restarted game continues after the last question asked.
- The ticker generation is not bumped on `!start` or when a round starts. It is bumped only by `stopTicker` and by a firing ticker (QuizGame.java:161-174).
- A guess is not checked against the running flag (QuizGame.java:101-110). A guess while stopped is still matched against the current question. Before any question exists it throws, which is modelled as the fault `NoSuchQuestion`.
- A message matching `-?\d+` whose value is outside the 32-bit range is not ignored: `Integer.decode` throws (outcome `Threw`).
- A digit string with a leading `0` is read as octal, both in the sum game and in the property setters.
- `sendTo` of an unknown id looks up `null` and throws a NullPointerException. The model reports `sent == false` and changes nothing.
- The server sends on the connection directly. There is no per-connection queue or handler thread.

## Model

| member | source | states |
|---|---|---|
| Function1.Compose | src/main/java/ru/spbau/mit/Function1.java:15-22 | `f.compose(g)` is defined where `f` is and `g` is on `f`'s result, and there it gives `g(f(x))` |
| Function1.ComposeIdRight | src/main/java/ru/spbau/mit/Function1.java:15-22 | composing with the identity on the right extends `f` |
| Function1.ComposeIdLeft | src/main/java/ru/spbau/mit/Function1.java:15-22 | composing the identity with `f` extends `f` |
| Function1.ComposeAssociative | src/main/java/ru/spbau/mit/Function1.java:15-22 | both groupings of a three-function composition are defined where the chain runs, and equal `h(g(f(x)))` |
| Function2.Compose | src/main/java/ru/spbau/mit/Function2.java:25-32 | `compose(g)` gives `g(f(x, y))` wherever `f` and then `g` are defined |
| Function2.Bind1 | src/main/java/ru/spbau/mit/Function2.java:41-48 | `bind1(x)` applied to `y` is `f(x, y)` |
| Function2.Bind2 | src/main/java/ru/spbau/mit/Function2.java:57-64 | `bind2(y)` applied to `x` is `f(x, y)` |
| Function2.Curry | src/main/java/ru/spbau/mit/Function2.java:73-80 | `curry()` never throws; its value at `x` is `bind1(x)`, and applying that to `y` is `f(x, y)` |
| Function2.BindsCommute | src/main/java/ru/spbau/mit/Function2.java:41-80 | `bind1(x)(y)`, `bind2(y)(x)` and `curry()(x)(y)` all equal `f(x, y)` |
| Function2.ComposeThenBind1 | src/main/java/ru/spbau/mit/Function2.java:25-48 | binding the first argument after composing equals composing after binding: `g(f(x, y))` |
| Predicate.AlwaysTrue | src/main/java/ru/spbau/mit/Predicate.java:11-16 | ALWAYS_TRUE is defined and true everywhere |
| Predicate.AlwaysFalse | src/main/java/ru/spbau/mit/Predicate.java:21-26 | ALWAYS_FALSE is defined and false everywhere |
| Predicate.Or | src/main/java/ru/spbau/mit/Predicate.java:35-44 | `p.or(g)` needs `g` only where `p` is false, and is `p(x) || g(x)` |
| Predicate.And | src/main/java/ru/spbau/mit/Predicate.java:52-61 | `p.and(g)` needs `g` only where `p` is true, and is `p(x) && g(x)` |
| Predicate.Not | src/main/java/ru/spbau/mit/Predicate.java:67-74 | `p.not()` is defined where `p` is, with the negated value |
| Predicate.OrShortCircuits | src/main/java/ru/spbau/mit/Predicate.java:35-44 | ALWAYS_TRUE.or(g) is true even for a `g` defined nowhere |
| Predicate.AndShortCircuits | src/main/java/ru/spbau/mit/Predicate.java:52-61 | ALWAYS_FALSE.and(g) is false even for a `g` defined nowhere |
| Predicate.NotNot | src/main/java/ru/spbau/mit/Predicate.java:67-74 | `p.not().not()` agrees with `p` |
| Predicate.DeMorgan | src/main/java/ru/spbau/mit/Predicate.java:35-74 | `p.or(g).not()` and `p.not().and(g.not())` are both defined at least where `p` is defined, and `g` too when `p` is false, and there they agree |
| Collections.Map | src/main/java/ru/spbau/mit/Collections.java:20-26 | the result has the source's length and element `k` is `f(src[k])` |
| Collections.Filter | src/main/java/ru/spbau/mit/Collections.java:36-44 | the result is the in-order subsequence of elements satisfying `f`; `x` is in it iff `x` is in the source and `f(x)` |
| Collections.FilteredMembers | src/main/java/ru/spbau/mit/Collections.java:36-44 | an element is kept iff it occurs and satisfies the predicate |
| Collections.FilteredAppend | src/main/java/ru/spbau/mit/Collections.java:36-44 | filtering distributes over concatenation, so the relative order is kept |
| Collections.TakeWhile | src/main/java/ru/spbau/mit/Collections.java:54-63 | `f` need only be defined up to the first element it rejects. The result is the longest prefix all of whose elements satisfy `f`: a prefix, all satisfying, and the next element (if any) does not |
| Collections.TakeWhileStopsEarly | src/main/java/ru/spbau/mit/Collections.java:56-59 | over [-1, 0] with `10 / x > 0`, which throws on 0, takeWhile stops at -1 and returns [] |
| Collections.TakeUnless | src/main/java/ru/spbau/mit/Collections.java:73-75 | `f` need only be defined up to the first element on which it holds. The result is the longest prefix on which `f` is false, and the next element (if any) satisfies `f` |
| Collections.NegatedPrefix | src/main/java/ru/spbau/mit/Collections.java:74 | along a prefix on which `f.not()` held, `f` was defined and false, so `takeWhile(f.not(), src)` is applied only where `f` is |
| Collections.FoldLeft | src/main/java/ru/spbau/mit/Collections.java:77-92 | the reference left fold `f(...f(f(x, e1), e2)..., en)` of the Javadoc, defined from the last element; FoldLeftAppend and FoldrIsReversedFoldLeft state its laws |
| Collections.Foldl | src/main/java/ru/spbau/mit/Collections.java:87-92 | the loop reassigning `x` computes the left fold `f(...f(f(x, e1), e2)..., en)` |
| Collections.FoldrFrom | src/main/java/ru/spbau/mit/Collections.java:97-103 | the private foldr over an iterator at position `pos`: the rest is folded first, then `f` is applied to the element taken; FoldrFromSuffix states what it computes |
| Collections.Foldr | src/main/java/ru/spbau/mit/Collections.java:115-117 | the public foldr, the private one on a fresh iterator; FoldrCons and FoldrIsReversedFoldLeft state what it computes |
| Collections.FoldrFromSuffix | src/main/java/ru/spbau/mit/Collections.java:97-103 | the recursive fold over an iterator at position `pos` is the right fold of the suffix from `pos` |
| Collections.FoldrCons | src/main/java/ru/spbau/mit/Collections.java:97-117 | `foldr(f, x, e1..en) == f(e1, foldr(f, x, e2..en))` |
| Collections.FoldLeftAppend | src/main/java/ru/spbau/mit/Collections.java:87-92 | the left fold of `a + b` is the fold of `b` started from the fold of `a` |
| Collections.FoldrAppend | src/main/java/ru/spbau/mit/Collections.java:97-117 | the right fold of `a + b` is the fold of `a` started from the fold of `b` |
| Collections.FoldrIsReversedFoldLeft | src/main/java/ru/spbau/mit/Collections.java:87-117 | foldr equals foldl with the arguments of `f` swapped, over the reversed input |
| Collections.FoldlExample | src/test/java/ru/spbau/mit/CollectionsTest.java:43-55 | foldl of `x + y` (String plus Integer) over 1..8 from "trololo:" gives "trololo:12345678" |
| Collections.FoldrExample | src/test/java/ru/spbau/mit/CollectionsTest.java:57-69 | foldr of `y + x` over 1..8 from "trololo:" gives "trololo:87654321" |
| Injector.SelectFrom | src/main/java/ru/spbau/mit/Injector.java:17-29 | the candidate loop returns an assignable candidate, or fails with ClassNotFound, AmbiguousImplementation or ImplementationNotFound |
| Injector.Select | src/main/java/ru/spbau/mit/Injector.java:15-29 | an unknown target is ClassNotFound; a chosen implementation is a candidate assignable to the target |
| Injector.SelectFromCounts | src/main/java/ru/spbau/mit/Injector.java:17-29 | from any point of the loop, the outcome is decided by the number of assignable candidates |
| Injector.SelectByCount | src/main/java/ru/spbau/mit/Injector.java:17-29 | with every candidate loadable: 0 assignable iff not found, exactly 1 iff success, 2 or more iff ambiguous |
| Injector.RootListedTwiceIsAmbiguous | src/main/java/ru/spbau/mit/Injector.java:61-64 | `initialize` appends the root itself, so a root already among the implementations is ambiguous |
| Injector.Injection.SelectImplementation | src/main/java/ru/spbau/mit/Injector.java:15-29 | the imperative search loop computes `Select` |
| Injector.DependencyPath | src/main/java/ru/spbau/mit/Injector.java:45-48 | the chains of nested resolutions: each type is a parameter type of the first constructor of the class selected for the type before it |
| Injector.PathStep | src/main/java/ru/spbau/mit/Injector.java:45-48 | each link of a chain goes from a selected class with a public constructor to one of its parameter types |
| Injector.PathExtend | src/main/java/ru/spbau/mit/Injector.java:47-48 | a chain ending at a class with a constructor goes on with each of its parameter types |
| Injector.PrefixTransitive | src/main/java/ru/spbau/mit/Injector.java:48 | a chain continuing a continuation of a prefix continues the prefix |
| Injector.ExplainsWiden | src/main/java/ru/spbau/mit/Injector.java:48 | the cause of an error found in a nested resolution is a cause for the resolution that started it |
| Injector.ResolvableUnexplained | src/main/java/ru/spbau/mit/Injector.java:10-55 | where every continuing chain resolves, no error has a cause |
| Injector.CycleExplained | src/main/java/ru/spbau/mit/Injector.java:33-37 | an explained InjectionCycle is a chain that selects some class twice |
| Injector.PendingMark | src/main/java/ru/spbau/mit/Injector.java:42 | putting null for the class selected at the end of the chain keeps every null entry on the chain of open calls |
| Injector.PendingUnmark | src/main/java/ru/spbau/mit/Injector.java:53 | recording the object leaves only the classes of the outer calls null |
| Injector.LeafResolves | src/main/java/ru/spbau/mit/Injector.java:61-64 | a root whose constructor has no parameters, with no other implementations, resolves on every chain |
| Injector.MutualDependencyRepeats | src/main/java/ru/spbau/mit/Injector.java:33-37 | two classes whose constructors take each other form a chain A, B, A that selects A twice |
| Injector.Injection.InitializeInContext | src/main/java/ru/spbau/mit/Injector.java:10-55 | selection errors are returned. A class still under construction (null in the context) is InjectionCycle. An already built class returns its object and changes nothing. A success is an object of the selected class recorded in the context. Old entries and objects are kept. Every failure has a cause on a chain continuing the open calls: a class selected twice for InjectionCycle, a class without a public constructor, or a failing selection |
| Injector.Injection.Construct | src/main/java/ru/spbau/mit/Injector.java:42-54 | with no public constructor, fails (the `getConstructors()[0]` exception), which is a cause on the chain. On success a new object of that class is recorded in the context, and the classes left null are those of the outer calls |
| Injector.Injection.Mark | src/main/java/ru/spbau/mit/Injector.java:42 | `context.put(className, null)`: the class is recorded as under construction, every null entry stays on the chain of open calls, and fewer candidates are left unrecorded |
| Injector.Injection.Build | src/main/java/ru/spbau/mit/Injector.java:45-54 | with no public constructor, fails with that cause; otherwise the arguments are built and the object created and recorded, or the failure of an argument, with its cause, is returned. Every other entry of the context is kept |
| Injector.ExtendsMarked | src/main/java/ru/spbau/mit/Injector.java:42-53 | marking an unrecorded class and then keeping every other entry keeps every entry the context had before |
| Injector.Injection.ResolveArguments | src/main/java/ru/spbau/mit/Injector.java:45-49 | on success each parameter type resolves, in order, to an object of the class selected for it; a failure has a cause on a chain through one of the parameter types |
| Injector.Injection.ResolveArgument | src/main/java/ru/spbau/mit/Injector.java:48 | one recursive resolution gives an object of the class selected for the parameter type |
| Injector.Injection.Create | src/main/java/ru/spbau/mit/Injector.java:52-53 | the new object gets the next index and the context maps its class to it |
| Injector.Descends | src/main/java/ru/spbau/mit/Injector.java:45-53 | following a chain of nested resolutions from an object of the class selected at one position reaches, at every later position, an object of the class selected there, created at least one step earlier per link |
| Injector.BuiltResolvable | src/main/java/ru/spbau/mit/Injector.java:33-53 | objects that were all built from earlier objects of the selected classes, one per class, make every chain from a root whose class is among them resolvable: no chain repeats a class |
| Injector.Initialize | src/main/java/ru/spbau/mit/Injector.java:57-65 | fails as selection of the root among `impls + [root]` fails; a success is an object of the selected class; at most one object per class; every object was built by the first public constructor of its class, from objects created before it whose classes are the ones selected for the parameter types. It succeeds if and only if every chain of nested resolutions from the root selects one class with a public constructor and never selects a class twice; every failure has such a cause, and InjectionCycle only comes from a chain that selects a class twice |
| JavaText.Wrap32 | src/main/java/ru/spbau/mit/SumTwoNumbersGame.java:48 | 32-bit wrap-around lands in the int range and is the identity on it |
| JavaText.DecodeMagnitude | src/main/java/ru/spbau/mit/GameServerImpl.java:22-24 | Integer.decode's reading: a leading 0 makes octal, a non-octal digit or an out-of-range value throws |
| JavaText.Signed | src/main/java/ru/spbau/mit/SumTwoNumbersGame.java:47 | the signed value if it is a 32-bit int, otherwise the respective bound is exceeded |
| JavaText.Decode | src/main/java/ru/spbau/mit/SumTwoNumbersGame.java:44-47 | `Integer.decode` on `-?\d+` yields a 32-bit value or throws |
| JavaText.NatToDecimal | src/main/java/ru/spbau/mit/GameServerImpl.java:38 | the decimal text of a count is digits with no leading zero, more than one digit from 10 on |
| JavaText.ToDecimal | src/main/java/ru/spbau/mit/SumTwoNumbersGame.java:26 | `Integer.toString` matches `-?\d+` and starts with '-' exactly for negative numbers |
| JavaText.NatToDecimalValue | src/main/java/ru/spbau/mit/SumTwoNumbersGame.java:26 | the decimal text of `n` is digits that read back as `n` |
| JavaText.DecodeToDecimal | src/main/java/ru/spbau/mit/SumTwoNumbersGame.java:26-48 | decode(toString(n)) == n for every 32-bit `n` |
| JavaText.ToDecimalInjective | src/main/java/ru/spbau/mit/SumTwoNumbersGame.java:26 | `Integer.toString` is injective on ints |
| JavaText.NatToDecimalInjective | src/main/java/ru/spbau/mit/GameServerImpl.java:38 | decimal ids of distinct counts are distinct |
| JavaText.DecodeOctalExamples | src/main/java/ru/spbau/mit/GameServerImpl.java:22-24 | "010" decodes to 8, "-010" to -8, and "09" throws |
| JavaText.DecodeDecimalExamples | src/main/java/ru/spbau/mit/SumTwoNumbersGame.java:44-47 | "0", "-0" and "-12" decode to 0, 0 and -12 |
| JavaText.DecodeRangeExamples | src/main/java/ru/spbau/mit/SumTwoNumbersGame.java:47 | "2147483648" throws and "-2147483648" is Integer.MIN_VALUE |
| JavaText.UpperCase | src/main/java/ru/spbau/mit/GameServerImpl.java:20 | ASCII lower-case letters move up by 32 and every other character is kept; non-ASCII letters, which `Character.toUpperCase` also maps, are not case-mapped here |
| JavaText.IndexOf | src/main/java/ru/spbau/mit/QuizGame.java:122 | the first position of the character, or -1 exactly when it does not occur |
| JavaText.IndexOfFirst | src/main/java/ru/spbau/mit/QuizGame.java:122 | a first occurrence is where `indexOf` finds it |
| GameServer.Server.constructor | src/main/java/ru/spbau/mit/GameServerImpl.java:11 | no clients at first |
| GameServer.Server.Accept | src/main/java/ru/spbau/mit/GameServerImpl.java:37-45 | the new id is the decimal client count, not already used; the client is registered and first receives its id |
| GameServer.Server.Broadcast | src/main/java/ru/spbau/mit/GameServerImpl.java:63-72 | every registered connection, and no other, gets the message appended |
| GameServer.Server.SendTo | src/main/java/ru/spbau/mit/GameServerImpl.java:75-84 | only the named connection gets the message; an unknown id sends nothing |
| GameServer.SetterName | src/main/java/ru/spbau/mit/GameServerImpl.java:20-21 | "set" plus the name with its first letter upper-cased; an empty name has none |
| GameServer.SetterNameCollisions | src/main/java/ru/spbau/mit/GameServerImpl.java:20-21 | two names give the same setter iff they differ at most in the case of the first letter |
| GameServer.SetterCall | src/main/java/ru/spbau/mit/GameServerImpl.java:19-28 | a `\d+` value goes through Integer.decode to the int setter, anything else to the String setter. A missing setter fails the setup, and an undecodable number is a NumberFormatException |
| GameServer.SetterCallExamples | src/main/java/ru/spbau/mit/GameServerImpl.java:22-24 | `x=010` calls `setX(8)` and `x=09` throws |
| GameServer.Setup | src/main/java/ru/spbau/mit/GameServerImpl.java:14-33 | an unloadable game class fails. Otherwise every property becomes its setter call, in the order in which the caller enumerates the properties, and the first failing property's error is the result |
| SumGame.Task | src/main/java/ru/spbau/mit/SumTwoNumbersGame.java:26 | the task is the two numbers' texts with exactly one space, right after the first number |
| SumGame.ParseTask | src/test/java/ru/spbau/mit/TestSumTwoNumbersGame.java:13-39 | a player reads a task only if it contains a space |
| SumGame.TaskRoundTrip | src/main/java/ru/spbau/mit/SumTwoNumbersGame.java:26 | every task `"%d %d"` of two operands reads back as those operands |
| SumGame.SumFits | src/main/java/ru/spbau/mit/SumTwoNumbersGame.java:11-48 | both operands below BOUND, so `i + j` never wraps |
| SumGame.RightAnswerText | src/main/java/ru/spbau/mit/SumTwoNumbersGame.java:44-48 | the decimal text of the sum matches `-?\d+` and decodes to the sum |
| SumGame.Game.constructor | src/main/java/ru/spbau/mit/SumTwoNumbersGame.java:18-21 | the first round is started and broadcast |
| SumGame.Game.StartRound | src/main/java/ru/spbau/mit/SumTwoNumbersGame.java:23-27 | new operands, broadcast as the task |
| SumGame.Game.OnPlayerConnected | src/main/java/ru/spbau/mit/SumTwoNumbersGame.java:30-37 | the current task goes to the new player only |
| SumGame.Game.OnPlayerSentMsg | src/main/java/ru/spbau/mit/SumTwoNumbersGame.java:40-60 | non-numbers are ignored and out-of-range numbers throw. The sum is Right and starts a new round; any other number is Wrong and keeps the round |
| SumGame.AnswerText | src/test/java/ru/spbau/mit/TestSumTwoNumbersGame.java:63 | a bot's answer `Integer.toString(n)` matches `-?\d+` and decodes back to `n` |
| SumGame.WrongAnswerKeepsTask | src/test/java/ru/spbau/mit/TestSumTwoNumbersGame.java:13-39 | a player answering `i + j + 1` is told Wrong and the operands stay |
| SumGame.TwoPlayersOneRound | src/test/java/ru/spbau/mit/TestSumTwoNumbersGame.java:13-39 | the wrong bot is told Wrong, the right bot Right, and both see the same broadcasts |
| Quiz.NewRound | src/main/java/ru/spbau/mit/QuizGame.java:15 | the banner starts with "New round started: " followed by the question |
| Quiz.CurrentPrefix | src/main/java/ru/spbau/mit/QuizGame.java:16 | "Current prefix is " followed by exactly the prefix |
| Quiz.Winner | src/main/java/ru/spbau/mit/QuizGame.java:17 | "The winner is " followed by exactly the id |
| Quiz.Stopped | src/main/java/ru/spbau/mit/QuizGame.java:19 | "Game has been stopped by " followed by exactly the id |
| Quiz.Nobody | src/main/java/ru/spbau/mit/QuizGame.java:20 | "Nobody guessed, the word was " followed by exactly the answer |
| Quiz.MessagesDistinct | src/main/java/ru/spbau/mit/QuizGame.java:15-20 | the six kinds of message never share a text, and the winner, stop, prefix and nobody texts determine their id, prefix or answer |
| Quiz.IsCommand | src/main/java/ru/spbau/mit/QuizGame.java:83 | a message is a command exactly when it starts with '!' |
| Quiz.ParseLine | src/main/java/ru/spbau/mit/QuizGame.java:122-123 | a line parses iff it has a ';'; the question is the text before the first ';' and the answer the rest |
| Quiz.ParseLineRoundTrip | src/main/java/ru/spbau/mit/QuizGame.java:122-123 | a question without ';' joined to any answer parses back to both |
| Quiz.NextIndex | src/main/java/ru/spbau/mit/QuizGame.java:140-143 | the next index, wrapping to 0 exactly at the question count |
| Quiz.NextIndexCycles | src/main/java/ru/spbau/mit/QuizGame.java:140-143 | from -1 or a valid index the next index is valid, and the last wraps to 0 |
| Quiz.NextIndexPastEnd | src/main/java/ru/spbau/mit/QuizGame.java:120-143 | an index already past a shorter, reloaded dictionary never wraps again |
| Quiz.PrefixSends | src/main/java/ru/spbau/mit/QuizGame.java:71-73 | one "Current prefix is" message per length 1..n, in increasing order, to the joining player |
| Quiz.PrefixSendsGrow | src/main/java/ru/spbau/mit/QuizGame.java:71-73 | one more open letter appends exactly the new prefix message |
| Quiz.QuizGame.constructor | src/main/java/ru/spbau/mit/QuizGame.java:51-60 | no questions, index -1, stopped, generation 0, nothing sent |
| Quiz.QuizGame.RunTicker | src/main/java/ru/spbau/mit/QuizGame.java:148-170 | a ticker capturing the current generation is armed |
| Quiz.QuizGame.StopTicker | src/main/java/ru/spbau/mit/QuizGame.java:172-174 | the generation advances past every armed ticker |
| Quiz.QuizGame.StartRound | src/main/java/ru/spbau/mit/QuizGame.java:139-147 | the index advances with wrap, no letter is open. The banner is broadcast and a ticker armed, or the missing question throws before anything is sent |
| Quiz.QuizGame.LoadQuestions | src/main/java/ru/spbau/mit/QuizGame.java:117-127 | an unreadable file keeps the old questions. Otherwise the lines parse in order, and a line without ';' stops the loading with the earlier lines kept |
| Quiz.QuizGame.StartGame | src/main/java/ru/spbau/mit/QuizGame.java:116-131 | an unreadable file or a line without ';' changes neither the running flag, the round nor the outbox. Otherwise the questions are the parsed lines, the game is running and a round starts (or throws for a missing question); only broadcasts are added |
| Quiz.QuizGame.StopGame | src/main/java/ru/spbau/mit/QuizGame.java:133-137 | every ticker goes stale, the stop is broadcast, the game stops, nothing else changes |
| Quiz.QuizGame.TickGame | src/main/java/ru/spbau/mit/QuizGame.java:176-185 | one more letter opens. Past the maximum, "Nobody guessed" is broadcast and a new round starts; otherwise the new prefix is broadcast and the ticker re-armed |
| Quiz.QuizGame.Tick | src/main/java/ru/spbau/mit/QuizGame.java:153-168 | only the ticker holding the live generation acts: it bumps the generation and ticks, with the new index, progress, messages and armed tickers of each branch of `tickGame`; a stale one changes nothing |
| Quiz.QuizGame.OnPlayerConnected | src/main/java/ru/spbau/mit/QuizGame.java:63-77 | nothing while stopped. While running, the banner then the prefixes 1..progress go to that player, or the fault that interrupts them |
| Quiz.QuizGame.OnPlayerSentMsg | src/main/java/ru/spbau/mit/QuizGame.java:80-114 | commands never get "Wrong try", and unknown commands and misplaced `!start`/`!stop` change nothing. `!stop` stops and `!start` loads and starts. The answer wins, stales the ticker and starts a new round; any other guess gets "Wrong try"; a guess before any question throws and changes nothing. Each branch states every field it keeps |
| StringSet.StartingInsert | src/main/java/ru/spbau/mit/StringSetImpl.java:38-42 | adding a string raises the count of exactly the prefixes it starts with, by one |
| StringSet.StartingDelete | src/main/java/ru/spbau/mit/StringSetImpl.java:74-78 | removing a stored string lowers the count of exactly its prefixes, by one |
| StringSet.StartingEmptyPrefix | src/main/java/ru/spbau/mit/StringSetImpl.java:83-85 | every string starts with "", so its count is the size |
| StringSet.PrefixesStep | src/main/java/ru/spbau/mit/StringSetImpl.java:24-34 | one more letter of the walk adds exactly one prefix, the one ending at that letter |
| StringSet.Trie.constructor | src/main/java/ru/spbau/mit/StringSetImpl.java:20 | the empty set, a root alone |
| StringSet.Trie.Descend | src/main/java/ru/spbau/mit/StringSetImpl.java:48-56 | the walk shared by contains, remove and howManyStartsWithPrefix, for any string whose characters up to the first missing node have child slots. It reaches the node spelling `s`, or null exactly when there is none |
| StringSet.Trie.NewChild | src/main/java/ru/spbau/mit/StringSetImpl.java:27-28 | a new unmarked node for the one-letter extension fills the empty slot |
| StringSet.Trie.Bump | src/main/java/ru/spbau/mit/StringSetImpl.java:38-42 | the parent walk adds `delta` to the count of exactly the nodes on the path to the root |
| StringSet.Trie.Mark | src/main/java/ru/spbau/mit/StringSetImpl.java:37 | setting `isFinal` adds the node's string to the set or takes it out |
| StringSet.Trie.Store | src/main/java/ru/spbau/mit/StringSetImpl.java:37-42 | the tail of add: the string joins the set with all counts right |
| StringSet.Trie.Unstore | src/main/java/ru/spbau/mit/StringSetImpl.java:73-78 | the tail of the corrected remove: the string leaves the set with all counts right |
| StringSet.Trie.Discount | src/main/java/ru/spbau/mit/StringSetImpl.java:73-78 | the tail of remove as written: the set is unchanged and the counts drop along the path |
| StringSet.Trie.Locate | src/main/java/ru/spbau/mit/StringSetImpl.java:24-34 | the downward walk of add, creating missing nodes, ends at the node spelling `s`; the nodes afterwards are the old ones plus one for each prefix of `s`, and the old nodes keep their index |
| StringSet.Trie.Add | src/main/java/ru/spbau/mit/StringSetImpl.java:23-44 | true iff the string was absent; afterwards it is in the set; the nodes afterwards are the old ones plus one for each prefix of the string |
| StringSet.Trie.Contains | src/main/java/ru/spbau/mit/StringSetImpl.java:47-58 | true iff the string is in the set, including strings whose walk breaks off before a character of code 127 or more |
| StringSet.Trie.RemoveAsWritten | src/main/java/ru/spbau/mit/StringSetImpl.java:61-80 | as written: true iff a node for the string exists but the string is not stored. The set never changes, no node is created or dropped, and the phantom records what the counts lost |
| StringSet.Trie.Remove | src/main/java/ru/spbau/mit/StringSet.java:13-16 | corrected: true iff the string was in the set; afterwards it is not; no node is created or dropped |
| StringSet.Trie.HowManyStartsWithPrefix | src/main/java/ru/spbau/mit/StringSetImpl.java:88-99 | the number of stored strings starting with the prefix, less those the as-written remove counted out; exact without it |
| StringSet.Trie.Size | src/main/java/ru/spbau/mit/StringSetImpl.java:83-85 | the number of stored strings, less the phantom removals |
| StringSet.RemoveAsWrittenKeepsElement | src/main/java/ru/spbau/mit/StringSetImpl.java:71-72 | with remove as written, an added string cannot be removed and stays contained |
| StringSet.RemoveAsWrittenOnEmpty | src/main/java/ru/spbau/mit/StringSetImpl.java:71-78 | with remove as written, removing "" from the empty set succeeds and the size becomes -1 |
| StringSet.ContainsPastMissingChild | src/main/java/ru/spbau/mit/StringSetImpl.java:51-52 | on an empty set, `contains("b\u00FF")` is false and its prefix count 0: the walk stops at the missing "b" |
| StringSet.WalksAfterAdd | src/main/java/ru/spbau/mit/StringSetImpl.java:23-85 | after `add("ab")`, `contains("b\u00FF")` is false, the source's `remove("a")` returns true, "ab" is still contained, and `size()` is 0 |
| StringSet.RemoveAfterAdd | src/main/java/ru/spbau/mit/StringSet.java:13-16 | with the corrected remove, add then remove leaves the string absent and the size 0 |
| Treap.Compare | src/main/java/ru/spbau/mit/TreeSetImpl.java:21 | the comparator's sign agrees with the order of the keys |
| Treap.SplitTree | src/main/java/ru/spbau/mit/TreeSetImpl.java:14-41 | the split of a tree shape at `k`: a top that goes left keeps its left subtree and takes the left part of splitting its right one, and the mirror. SplitParts, SplitOrdered, SplitHeap and SplitDistinct state what it computes |
| Treap.MergeTree | src/main/java/ru/spbau/mit/TreeSetImpl.java:43-55 | the merge of two tree shapes: the top of smaller priority stays on top. MergeParts, MergeOrdered, MergeHeap and MergeDistinct state what it computes |
| Treap.SplitParts | src/main/java/ru/spbau/mit/TreeSetImpl.java:14-41 | split shares out the keys, nodes and priorities of the tree between the two parts |
| Treap.SplitOrdered | src/main/java/ru/spbau/mit/TreeSetImpl.java:14-41 | on a search tree, the left part holds exactly the keys below the cut (`<` or `<=` as `allowEquals`) |
| Treap.SplitHeap | src/main/java/ru/spbau/mit/TreeSetImpl.java:14-41 | both parts of a heap-ordered tree are heap-ordered |
| Treap.SplitDistinct | src/main/java/ru/spbau/mit/TreeSetImpl.java:14-41 | both parts have no repeated node and share none |
| Treap.SplitTreaps | src/main/java/ru/spbau/mit/TreeSetImpl.java:14-41 | split of a treap gives two treaps holding its nodes, the keys below the cut on the left |
| Treap.MergeParts | src/main/java/ru/spbau/mit/TreeSetImpl.java:43-55 | merge keeps all keys, nodes and priorities of both operands |
| Treap.MergeOrdered | src/main/java/ru/spbau/mit/TreeSetImpl.java:43-55 | merging search trees whose keys are in order gives a search tree |
| Treap.MergeHeap | src/main/java/ru/spbau/mit/TreeSetImpl.java:43-55 | merge keeps the heap order |
| Treap.MergeDistinct | src/main/java/ru/spbau/mit/TreeSetImpl.java:43-55 | merging disjoint trees repeats no node |
| Treap.MergeTreaps | src/main/java/ru/spbau/mit/TreeSetImpl.java:43-55 | merge of two ordered, disjoint treaps is a treap with the union of keys and nodes |
| Treap.SizeCountsKeys | src/main/java/ru/spbau/mit/TreeSetImpl.java:62-65 | in a search tree the node count is the number of keys |
| Treap.OnlyKey | src/main/java/ru/spbau/mit/TreeSetImpl.java:69-70 | a search tree whose keys are all `e` is empty or the single node `e` |
| Treap.Isolate | src/main/java/ru/spbau/mit/TreeSetImpl.java:69-70 | the two splits cut a treap into treaps below, at and above `e`. The middle is empty or a single `e` node, and they share out the nodes |
| Treap.IsolateKeys | src/main/java/ru/spbau/mit/TreeSetImpl.java:69-70 | the three parts' keys make up the whole, and the middle is empty exactly when `e` is absent |
| Treap.Reassemble | src/main/java/ru/spbau/mit/TreeSetImpl.java:76 | `merge(a, merge(c, d))` of three ordered disjoint treaps is a treap with all their keys and nodes |
| Treap.AttachRight | src/main/java/ru/spbau/mit/TreeSetImpl.java:134-140 | after `setRight`, the node represents itself over its left subtree and the new right shape; only it and the child's top change |
| Treap.AttachLeft | src/main/java/ru/spbau/mit/TreeSetImpl.java:125-131 | the mirror image for `setLeft` |
| Treap.NewMiddle | src/main/java/ru/spbau/mit/TreeSetImpl.java:72-75 | a fresh node for a missing `e` between the outer parts makes the three parts again |
| Treap.AddSets | src/main/java/ru/spbau/mit/TreeSetImpl.java:67-78 | after add the keys gain `e`; a node was created iff `e` was absent |
| Treap.PiecesKeys | src/main/java/ru/spbau/mit/TreeSetImpl.java:94-95 | the middle part holds exactly the nodes keyed `o` |
| Treap.PiecesOuter | src/main/java/ru/spbau/mit/TreeSetImpl.java:100 | the outer parts merge into one treap with their keys and nodes |
| Treap.RemoveSets | src/main/java/ru/spbau/mit/TreeSetImpl.java:92-102 | after remove the keys lose `o`; exactly the nodes keyed `o` leave the tree |
| Treap.TreeSetImpl.constructor | src/main/java/ru/spbau/mit/TreeSetImpl.java:7-12 | an empty set: null root, no nodes |
| Treap.TreeSetImpl.Invalidate | src/main/java/ru/spbau/mit/TreeSetImpl.java:117-123 | the node's size becomes one plus its children's sizes; nothing else changes |
| Treap.TreeSetImpl.SetLeft | src/main/java/ru/spbau/mit/TreeSetImpl.java:125-131 | the child is linked under the node both ways and the size recomputed |
| Treap.TreeSetImpl.SetRight | src/main/java/ru/spbau/mit/TreeSetImpl.java:134-140 | the mirror image |
| Treap.TreeSetImpl.Split | src/main/java/ru/spbau/mit/TreeSetImpl.java:14-41 | the nodes under `t` are relinked into the two parts of the split, both tops parentless; no other node and no key changes |
| Treap.TreeSetImpl.SplitRightChild | src/main/java/ru/spbau/mit/TreeSetImpl.java:21-27 | the branch where the top goes left, relinking as `SplitTree` says |
| Treap.TreeSetImpl.SplitLeftChild | src/main/java/ru/spbau/mit/TreeSetImpl.java:28-35 | the mirror branch |
| Treap.TreeSetImpl.Merge | src/main/java/ru/spbau/mit/TreeSetImpl.java:43-55 | the two shapes are relinked into their merge; the top keeps its parent link and only their nodes change |
| Treap.TreeSetImpl.MergeUnderLeft | src/main/java/ru/spbau/mit/TreeSetImpl.java:48-50 | the branch where the left top stays on top |
| Treap.TreeSetImpl.MergeUnderRight | src/main/java/ru/spbau/mit/TreeSetImpl.java:51-54 | the branch where the right top stays on top |
| Treap.TreeSetImpl.SplitAround | src/main/java/ru/spbau/mit/TreeSetImpl.java:69-70 | the set is cut into parts below, at and above `e`. The middle is a single `e` node iff `e` is an element; keys and nodes are shared out |
| Treap.TreeSetImpl.Rejoin | src/main/java/ru/spbau/mit/TreeSetImpl.java:76 | `root = merge(a, merge(c, d))` is a valid set holding the keys and nodes of the three parts |
| Treap.TreeSetImpl.Size | src/main/java/ru/spbau/mit/TreeSetImpl.java:62-65 | the root's size field is the number of elements |
| Treap.TreeSetImpl.Add | src/main/java/ru/spbau/mit/TreeSetImpl.java:67-78 | true iff `e` was absent; the elements become old + {e}, and a node is created exactly then; no key changes |
| Treap.TreeSetImpl.Contains | src/main/java/ru/spbau/mit/TreeSetImpl.java:80-90 | true iff `o` is an element; the elements and nodes stay the same |
| Treap.TreeSetImpl.Remove | src/main/java/ru/spbau/mit/TreeSetImpl.java:92-102 | true iff `o` was present; the elements become old - {o}, and exactly the node keyed `o` leaves the tree |
| Treap.Locate | src/main/java/ru/spbau/mit/TreeSetImpl.java:164-178 | any node of a tree has a path from the top to it |
| Treap.PlugParts | src/main/java/ru/spbau/mit/TreeSetImpl.java:164-178 | every subtree on a path of a represented treap is a represented treap |
| Treap.Outside | src/main/java/ru/spbau/mit/TreeSetImpl.java:164-178 | a key outside a subtree of a search tree lies on one side of all of it |
| Treap.Successor | src/main/java/ru/spbau/mit/TreeSetImpl.java:164-178 | a successor within a subtree is the successor in the whole tree |
| Treap.LeftSpineMin | src/main/java/ru/spbau/mit/TreeSetImpl.java:154-160 | the end of the left spine holds the smallest key |
| Treap.ClimbStep | src/main/java/ru/spbau/mit/TreeSetImpl.java:173-177 | one step up the parent link; `node.right == prevNode` exactly when coming from the right |
| Treap.ClimbEnd | src/main/java/ru/spbau/mit/TreeSetImpl.java:172-177 | at the top no key follows; at a node reached from the left, that node holds the next key |
| Treap.DescendEnd | src/main/java/ru/spbau/mit/TreeSetImpl.java:165-170 | the leftmost node of the right subtree holds the next key |
| Treap.TreapIterator.constructor | src/main/java/ru/spbau/mit/TreeSetImpl.java:152-162 | the iterator starts at the leftmost node: every element is still to come |
| Treap.TreapIterator.HasNext | src/main/java/ru/spbau/mit/TreeSetImpl.java:189-191 | true iff some element is still to come |
| Treap.TreapIterator.GoToNext | src/main/java/ru/spbau/mit/TreeSetImpl.java:164-178 | moves to the next larger key; the current key is no longer to come |
| Treap.TreapIterator.DescendRight | src/main/java/ru/spbau/mit/TreeSetImpl.java:165-171 | the branch through the right child |
| Treap.TreapIterator.ClimbUp | src/main/java/ru/spbau/mit/TreeSetImpl.java:172-177 | the branch climbing the parent links |
| Treap.TreapIterator.Next | src/main/java/ru/spbau/mit/TreeSetImpl.java:194-201 | the least element still to come, which then is no longer to come; NoSuchElementException when none is left |
| Treap.TreapIterator.Remove | src/main/java/ru/spbau/mit/TreeSetImpl.java:181-186 | the element `next` returned last leaves the set, and what is to come is unchanged. IllegalStateException, with nothing changed, when there is none |
| Treap.Elements | src/test/java/ru/spbau/mit/Level1Test.java:84 | a full pass of the iterator lists exactly the elements, strictly ascending |
| Treap.AddRound | src/test/java/ru/spbau/mit/Level1Test.java:13-17 | on {0..e-1}: add(e) is true, contains(e) true, add(e) again false, size e + 1 |
| Treap.AddRounds | src/test/java/ru/spbau/mit/Level1Test.java:12-18 | the rounds for 0..n-1 all report as the test expects and leave {0..n-1} |
| Treap.AddAscending | src/test/java/ru/spbau/mit/Level1Test.java:9-19 | the test on a new set: every round reports as expected |
| Treap.EmptyIterator | src/test/java/ru/spbau/mit/Level1Test.java:67-74 | the iterator of an empty set has no next, and `next` throws |

## Left out

- Threads and locks: the server's per-connection reader threads, the quiz ticker threads and their sleep, and the games' locks. Every event runs to completion, one at a time, in the order the caller gives.
- I/O: connections are the sequences of messages sent on them. The dictionary file is its lines, or None when unreadable. Printing stack traces is not modelled.
- Randomness (`java.util.Random`): the sum game's operands and the treap priorities are parameters.
- Reflection: `Class.forName`, `isAssignableFrom`, `getConstructors`, `getMethod` and `newInstance` become an explicit universe of classes, subtypes, constructor parameter types and setters. Constructors are assumed not to throw.
- Java generics and `Comparator`: the treap holds `int` keys compared as `Integer.compareTo`. The ClassCastException of `contains`/`remove` on a foreign object does not arise.
- Object identity: TreeSetImpl's nodes and StringSetImpl's trie nodes live in arenas, with `Null` (-1) for null. Aliasing between separate sets does not arise.
- Treap.TreapIterator.Remove: requires an iterator in a consistent state. An iterator outliving a direct change to its set is not modelled.
- Treap.TreeSetImpl.Size: the 32-bit overflow of the `size` field beyond 2^31 - 1 nodes is not modelled.
- StringSet.Trie.Add: characters with code 127 or more index past the 127-slot child array and throw. The model requires characters below 127.
- StringSet.Trie.Contains, StringSet.Trie.RemoveAsWritten, StringSet.Trie.Remove, StringSet.Trie.HowManyStartsWithPrefix: the walk stops at the first missing node, so later characters are never read. A character of code 127 or more that the walk does reach throws in Java; the model requires that no such character is reached.
- Quiz.NewRound, Quiz.PrefixSends, Quiz.QuizGame.StartRound, Quiz.QuizGame.TickGame, Quiz.QuizGame.Tick, Quiz.QuizGame.OnPlayerConnected: answer lengths and opened prefixes count characters, where Java's `length()` and `substring` count UTF-16 code units. The two agree only on answers without characters outside the Basic Multilingual Plane. For the answer "\U{1F600}" Java announces 2 letters and opens half a surrogate pair on the first tick, where the model announces 1 letter.
- StringSet.Trie.Size: the `count` fields are unbounded integers; their 32-bit overflow is not modelled.
- GameServer.Server.Accept: the id is `Integer.toString(clients.size())` over an unbounded count. The call `game.onPlayerConnected(id)` that ends `accept` (GameServerImpl.java:46) is not modelled: the server and the games are separate models, and what a game sends to a new player is stated by SumGame.Game.OnPlayerConnected and Quiz.QuizGame.OnPlayerConnected.
- JavaText.UpperCase: only ASCII letters are case-mapped. `Character.toUpperCase` also maps other letters ('é' to 'É'), so for a property name starting with such a letter the model's setter name differs from Java's.
- The quiz game's `setDictionaryFilename` and `setDelayUntilNextLetter`, because the file contents and the delay are inputs. Its `setMaxLettersToOpen` is the constructor's argument.
- `Collections.map`/`filter`/`takeWhile` return an ArrayList. The model returns sequences and treats a function that throws as one whose `requires` excludes that element.
- Collections.Foldl, Collections.FoldLeft, Collections.FoldrFrom, Collections.Foldr: the folding function is total. A `Function2` that throws, whose exception `foldl` and `foldr` pass on, is not modelled.
- `HelloWorldServer`, `Connection`, `Game`, `Pair` and the serializable string set are not part of this model.

## Findings

| source | as written | input that shows it | evidently intended | confidence | as-written member | corrected member |
|---|---|---|---|---|---|---|
| src/main/java/ru/spbau/mit/StringSetImpl.java:71 | `if (node.isFinal) return false;`: remove gives up on a stored string. On a node that exists but is not stored, it lowers the counts and returns true | `add("a")` then `remove("a")` returns false and "a" stays. `remove("")` on an empty set returns true and `size()` becomes -1 | `if (!node.isFinal) return false;`, as the StringSet interface documents: true iff the set contained the element, which is then removed | not executed | StringSet.Trie.RemoveAsWritten (shown by StringSet.RemoveAsWrittenKeepsElement and StringSet.RemoveAsWrittenOnEmpty) | StringSet.Trie.Remove (with StringSet.RemoveAfterAdd) |
