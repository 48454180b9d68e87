# mejs core, modelled in Dafny

This project models four small programs from the `mejs` collection and proves properties about them.

- **The equation compiler** (`mejs/Postfix.js`). It turns an equation in `x` into tokens. The tokenizer rewrites the text, tells unary from binary minus, scans numbers with at most one decimal point and looks up function names. A shunting-yard conversion turns the tokens into postfix. A stack machine evaluates the postfix form for a value of `x`.
  - Modules: `PostfixTokens` (the token TYPE table, the token predicates, `typeMap`, `evaluateByToken`), `PostfixLexer` (`stringToInfix`), `PostfixParser` (`infixToPostfix`, `stringToPostfix`), `PostfixEval` (`evaluatePostfix`, `evaluate`).
  - Each loop of the source is a method. It is proved equal to a function, and the properties are lemmas about that function.
  - Values are terms, not numbers. A number is `Literal(its digits)`, possibly `Negated`. `pi` is `PiConstant`. An operator applied to arguments is `Binary(op, left, right)` or `Unary(fn, arg)`. This lets the proofs say which operand goes where without floating point.
- **The snake game** (`mejs/Snake.js`). The game's global state and the `snake` object form one class, `Snake.SnakeGame`.
  - Its fields: the tile map (0 empty, 1 head, 2 body, 3 food), the snake's body list, the list of tiles to redraw, the counters, the directions and the stored high score.
  - Each method's new state is given by a function on a value snapshot of the game (`Snake.Snapshot`). The lemmas prove that playing keeps the map and the counters consistent with the snake and the food.
- **The traffic simulator** (`mejs/Traffic.js`).
  - `Traffic.Network` owns the registries of intersections and cars and the two id counters.
  - `Traffic.Intersection` keeps the set of ids it has roads to. `Traffic.Car` keeps its two intersections, its speed and its progress.
  - Connecting is specified by the road graph it produces. A car's frame is specified by the predicate `CarStepped`.
- **The automaton builder** (`mejs/FA.js`).
  - `FiniteAutomata.FiniteAutomaton` reads a pattern. It chains one new state onto its end state for every character of the alphabet `[a-zA-Z0-9-_]`.
  - A ghost transition table mirrors the states' transitions. It is proved to be the chain of the pattern's alphabet characters.

The source's random choices are nondeterministic choices in the model: the food tile and a car's next road. The persistent high-score cookie is an `Option<int>` field. The console warnings of `connect` are a returned count.

## Model

| member | source | states |
|---|---|---|
| PostfixTokens.Info | mejs/Postfix.js:94-110 | Operators have a precedence, an associativity and two operands. Functions have a precedence and one operand, but no associativity. Operands have neither a precedence nor an operand count. Exactly operators and functions have an operand count. |
| PostfixTokens.NewToken | mejs/Postfix.js:9-14 | The token has the given type. It carries the given value exactly when the type is an operand; otherwise its value is undefined. |
| PostfixTokens.PrecedenceTrichotomy | mejs/Postfix.js:20-30 | Higher, equal and lower precedence exclude one another. One of them holds exactly when both tokens have a precedence; an undefined precedence makes all three false. |
| PostfixTokens.RequiredOperands | mejs/Postfix.js:54-60 | Succeeds exactly for operators (2 operands) and functions (1 operand). Every other token throws the internal "no number of operands" error. |
| PostfixTokens.TypeMap | mejs/Postfix.js:112-127 | No name maps to NUMBER. Every known name longer than one character is a lower-case word. |
| PostfixTokens.EvaluateByToken | mejs/Postfix.js:64-91 | Succeeds exactly for types with an operand count, and otherwise throws "did not know how to evaluate". The result applies the operator to its operands in written order: `ops[1]` is the left operand of a binary operator and `ops[0]` the right one. |
| PostfixLexer.ToLower | mejs/Postfix.js:234 | Same length. Each upper-case ASCII letter becomes the character 32 code points above it, its lower-case form; every other character is kept. No upper-case letter is left. |
| PostfixLexer.ParenthesizeX | mejs/Postfix.js:240 | Every `x` of the result stands between `(` and `)`. The first character is kept, or is the `(` of a wrapped `x`, and a last character other than `x` stays last. Every other character is from the input or is a parenthesis. |
| PostfixLexer.UnparenParenthesizeX | mejs/Postfix.js:240 | Wrapping loses nothing: turning every `(x)` back into `x` gives the input back. |
| PostfixLexer.RemoveWhitespace | mejs/Postfix.js:243 | The result holds no whitespace, keeps every non-whitespace character of the input and adds none. A non-whitespace first or last character stays first or last. |
| PostfixLexer.RemoveWhitespaceCounts | mejs/Postfix.js:243 | Each non-whitespace character occurs in the result exactly as often as in the input; whitespace never does. |
| PostfixLexer.RemoveWhitespaceConcat | mejs/Postfix.js:243 | Removal works piece by piece, so the characters kept stay in input order. |
| PostfixLexer.RemoveWhitespaceKeepsX | mejs/Postfix.js:240-243 | Removing whitespace keeps every `x` between its `(` and `)`. |
| PostfixLexer.ReplaceNegation | mejs/Postfix.js:246 | Every `(-` left in the result begins `(-1)*`. The first character is unchanged and a closing `)` stays last. Only the characters of `((-1)*` are added. |
| PostfixLexer.RestoreReplaceNegation | mejs/Postfix.js:246 | The rewrite loses nothing: turning every `((-1)*` back into `(-` gives the input back. |
| PostfixLexer.ReplaceNegationKeepsX | mejs/Postfix.js:240-246 | Expanding the negations keeps every `x` between its `(` and `)`. |
| PostfixLexer.InsertStars | mejs/Postfix.js:249-252 | The result is one character longer for each adjacent pair the pattern (digit then letter, `)(`, digit then `(`, `)` then letter) matches, and no matching pair is left. The first and last characters are kept, and only `*` is added. |
| PostfixLexer.InsertStarsOnlyAddsStars | mejs/Postfix.js:249-252 | Dropping every `*` from the result gives the input with its `*` dropped. |
| PostfixLexer.InsertStarsPlaces | mejs/Postfix.js:249-252 | Each input character sits in the result at its own index plus the number of matches up to it, so the input's characters keep their order. |
| PostfixLexer.InsertStarsMarksMatches | mejs/Postfix.js:249-252 | Right after the first character of every match stands a `*`. |
| PostfixLexer.InsertStarsKeepsX | mejs/Postfix.js:240-252 | Inserting stars keeps every `x` between its `(` and `)`. |
| PostfixLexer.InsertStarsKeepsNegations | mejs/Postfix.js:246-252 | Inserting stars keeps every `(-` at the start of `(-1)*`. |
| PostfixLexer.InsertStarsKeepsNoJoins | mejs/Postfix.js:249-252 | Inserting stars for one pattern never creates a match of another. |
| PostfixLexer.Compact | mejs/Postfix.js:234-243 | The equation lower-cased, wrapped, its variables parenthesized and its whitespace removed starts with `(` and ends with `)`. It holds no whitespace and no upper-case letter, and every `x` stands between `(` and `)`. |
| PostfixLexer.Starred | mejs/Postfix.js:249-252 | After the four star rewrites in order, none of the four patterns matches anywhere. The first and last characters are kept. Wrapped variables and expanded negations stay so. |
| PostfixLexer.Rewrite | mejs/Postfix.js:234-252 | The rewritten equation starts with `(` and ends with `)` and holds no whitespace or upper-case letter. Every `x` stands between `(` and `)`, every `(-` begins `(-1)*`, and no implied multiplication is left without its `*`. |
| PostfixLexer.LetterEnd | mejs/Postfix.js:272-278 | The end of the run of lower-case letters at `i`: everything before it is a letter, and the character at it is not. |
| PostfixLexer.NumberRunEnd | mejs/Postfix.js:313-331 | The end of the run of digits and decimal points: everything before it belongs to a number, and the character at it does not. |
| PostfixLexer.ScanNumberMeaning | mejs/Postfix.js:313-331 | The number scan succeeds exactly when the run holds at most one decimal point (counting one already seen). It then stops at the end of the run. |
| PostfixLexer.NextToken | mejs/Postfix.js:256-356 | A token read successfully consumes at least one character and stays within the text. |
| PostfixLexer.MinusRule | mejs/Postfix.js:269-306 | A `-` is read as subtraction exactly when a digit or `)` comes right before it. Otherwise a successful read gives a negated NUMBER. |
| PostfixLexer.NextTokenErrors | mejs/Postfix.js:280-337 | Each of the three tokenizer errors is thrown exactly under its condition, and no other error is thrown. The conditions: a letter run that is not a known name; a number run with two decimal points; a character that neither is a known token nor starts a number. |
| PostfixLexer.NumberTokenShape | mejs/Postfix.js:298-349 | A NUMBER token covers the whole run of digits and decimal points after an optional negating `-`. That run is non-empty and holds at most one decimal point. |
| PostfixLexer.Lex | mejs/Postfix.js:256-357 | The tokenizer yields at most one token per character. |
| PostfixLexer.ReadToken | mejs/Postfix.js:258-356 | The loop body, with its two scanning loops, yields exactly `NextToken`: the token and the position after it, or the error. |
| PostfixLexer.StringToInfix | mejs/Postfix.js:231-360 | `stringToInfix` yields exactly `Lex` of the rewritten equation: all of its tokens, or the first error. |
| PostfixParser.PopsForPrecedence | mejs/Postfix.js:376-389 | A left-associative operator pops a stacked operator of greater or equal precedence. A right-associative one pops only a strictly higher one. Nothing that is not an operator is popped. |
| PostfixParser.PopOperators | mejs/Postfix.js:377-388 | The remaining stack is a prefix of the stack, and the output is only extended. Every token moved satisfies the popping rule, and the new top does not. |
| PostfixParser.PopOperatorsTakesTop | mejs/Postfix.js:377-388 | The tokens moved are exactly the top of the stack removed, in popping order. |
| PostfixParser.PopToBrace | mejs/Postfix.js:392-406 | Succeeds exactly when a left brace is on the stack; otherwise it throws "Mismatched parentheses". On success the stack is cut just below a left brace, the output is only extended, and no left brace reaches the output. |
| PostfixParser.PopToBraceTakesTop | mejs/Postfix.js:393-396 | The left brace found is the nearest one. The tokens moved are exactly those above it, in the order they are popped. |
| PostfixParser.Finish | mejs/Postfix.js:411-418 | Succeeds exactly when no left brace is left on the stack, and otherwise throws "Mismatched parentheses". On success the whole stack is popped onto the output. |
| PostfixParser.StepFacts | mejs/Postfix.js:369-409 | One token fails only when it is a right brace with no left brace stacked, and the error is "Mismatched parentheses". A successful step conserves the operand order and the non-brace tokens and tracks the brace depth. |
| PostfixParser.ShuntBalanced | mejs/Postfix.js:363-421 | From any reachable stack, the conversion succeeds exactly when the rest of the input closes the braces on the stack. |
| PostfixParser.ToPostfixFailsIffUnbalanced | mejs/Postfix.js:393-416 | Conversion throws exactly when the input's parentheses do not match, and then with "Mismatched parentheses". |
| PostfixParser.ToPostfixKeepsOperandOrder | mejs/Postfix.js:372-373 | The operand tokens of the output are those of the input, in the same order. |
| PostfixParser.ToPostfixIsBraceFreePermutation | mejs/Postfix.js:390-418 | The output has no brace tokens. As a multiset it equals the input's non-brace tokens. |
| PostfixParser.RunOverBrace | mejs/Postfix.js:369-409 | Reading tokens above a left brace behaves exactly as reading them above the brace alone: what lies below the brace is never touched. |
| PostfixParser.BracesAddNothing | mejs/Postfix.js:390-396 | Parentheses around a balanced sub-expression do not change its conversion. |
| PostfixParser.FunctionAppliedAfterArgument | mejs/Postfix.js:374-403 | A function followed by a balanced argument in parentheses converts to the argument's own conversion followed by the function. |
| PostfixParser.LeftAssociativeExample | mejs/Postfix.js:376-389 | `1-2-3` becomes `1 2 - 3 -`. |
| PostfixParser.RightAssociativeExample | mejs/Postfix.js:376-389 | `1^2^3` becomes `1 2 3 ^ ^`. |
| PostfixParser.PrecedenceExample | mejs/Postfix.js:376-389 | `1+2*3` becomes `1 2 3 * +`. |
| PostfixParser.FunctionExample | mejs/Postfix.js:399-403 | `sin(x)*2` becomes `x sin 2 *`. |
| PostfixParser.UnmatchedCloseExample | mejs/Postfix.js:392-406 | `1)` throws "Mismatched parentheses". |
| PostfixParser.InfixToPostfix | mejs/Postfix.js:363-421 | The method, with its stack and output lists and its nested loops, yields exactly `ToPostfix`. |
| PostfixParser.CompileMeaning | mejs/Postfix.js:424-430 | Compiling succeeds exactly when the equation tokenizes and its parentheses match. A tokenizer error is passed on unchanged. A compiled result keeps the operands in order and is a brace-free permutation of the tokens. |
| PostfixParser.StringToPostfix | mejs/Postfix.js:424-430 | `stringToPostfix` yields exactly `Compile`: the tokenizer, then the conversion. |
| PostfixEval.TopValues | mejs/Postfix.js:210-213 | The `n` values popped into the operand array: entry `k` is the `k`-th value from the top. |
| PostfixEval.EvalStepErrors | mejs/Postfix.js:201-219 | One step throws exactly for a brace or for an operator or function that finds fewer values than it requires. A brace throws the operand-count error, a short stack "not enough operands", and there are no other errors. |
| PostfixEval.BinaryStep | mejs/Postfix.js:206-214 | A binary step replaces the two top values by the operator applied to them. The value pushed earlier is the left operand. |
| PostfixEval.FunctionStep | mejs/Postfix.js:206-214 | A function step replaces the top value by the function applied to it. |
| PostfixEval.EvalEmit | mejs/Postfix.js:194-228 | Running the postfix form of a well-formed expression tree pushes exactly the tree's value and leaves the stack below alone. |
| PostfixEval.EvalOfEmit | mejs/Postfix.js:194-228 | The postfix form of a well-formed expression tree evaluates to the tree's value. |
| PostfixEval.LeftoverOperandsFail | mejs/Postfix.js:223-225 | Two complete expressions one after the other leave two values, which throws "too many operands". |
| PostfixEval.EmptyFails | mejs/Postfix.js:223-225 | An empty postfix list leaves no value and throws "too many operands". |
| PostfixEval.SubtractionGroupsLeft | mejs/Postfix.js:98-99 | `1-2-3`, converted and evaluated, is `(1-2)-3`. |
| PostfixEval.PowerGroupsRight | mejs/Postfix.js:107 | `1^2^3`, converted and evaluated, is `1^(2^3)`. |
| PostfixEval.ProductBindsTighter | mejs/Postfix.js:98-106 | `1+2*3`, converted and evaluated, is `1+(2*3)`. |
| PostfixEval.BindVariable | mejs/Postfix.js:181-187 | Every VARIABLE token gets value `x`. The types and all other tokens are unchanged. |
| PostfixEval.RebindOverrides | mejs/Postfix.js:181-187 | Binding `x` and then `y` is the same as binding `y`. |
| PostfixEval.ErrorsIgnoreValues | mejs/Postfix.js:194-228 | Whether evaluation throws, and which error, depends only on the token types and the stack height. |
| PostfixEval.BindingDoesNotChangeErrors | mejs/Postfix.js:178-192 | Whether `evaluate` throws does not depend on the value given to `x`. |
| PostfixEval.EvaluatePostfix | mejs/Postfix.js:194-228 | The stack-machine method yields exactly `Eval`. |
| PostfixEval.Evaluate | mejs/Postfix.js:178-192 | The token array is overwritten in place with the bound tokens, and the result is `Eval` of them. |
| Snake.Advance | mejs/Snake.js:36-44 | A step from a tile on the map stays on the map. |
| Snake.AdvanceMeaning | mejs/Snake.js:36-44 | The head stays put exactly when it is at the wall it moves towards. Otherwise it moves one tile in its direction. |
| Snake.NextDirection | mejs/Snake.js:162-170 | The planned direction, when it changes, is a direction and not the reverse of the current one. |
| Snake.NeverReverses | mejs/Snake.js:162-170 | From a plan that does not reverse, the new plan is a direction that never reverses the current direction. |
| Snake.NoKeyKeepsDirection | mejs/Snake.js:162-170 | Without arrow keys the plan stays as it was. |
| Snake.RecordScore | mejs/Snake.js:246-259 | The best score is the maximum of the stored score and this one, and it is stored afterwards. This score is stored exactly when none was stored or it is at least the stored one. |
| Snake.RecordAllKeepsMaximum | mejs/Snake.js:246-259 | After a series of games the store holds the maximum of all their scores and of what it held before. |
| Snake.BlankBoard | mejs/Snake.js:131-141 | The blank map: every tile of the 54 by 40 grid is empty, and there are no other tiles. |
| Snake.Moved | mejs/Snake.js:57-67 | The new head is the last entry of the list. The list grows by one when the snake grows, and otherwise loses its oldest entry. |
| Snake.SelfCollision | mejs/Snake.js:32-46 | Once the old head is marked as body, the new head's tile is body exactly when the new head is on the snake. |
| Snake.FoodEaten | mejs/Snake.js:50-53 | The new head's tile shows food exactly when it holds food. |
| Snake.MovedFacts | mejs/Snake.js:55-67 | After a safe move the snake's tiles are still distinct, and none of them holds the remaining food. |
| Snake.SafeMoveKeeps | mejs/Snake.js:55-67 | After a safe move, grown or not, the map shows exactly the moved snake and the remaining food. |
| Snake.SafeStep | mejs/Snake.js:46-67 | A safe move finds no body on the new tile. Food there is eaten, and the map afterwards pictures the snake and the food. |
| Snake.FoodPlacedKeeps | mejs/Snake.js:186-188 | Food put on an empty tile is neither on the snake nor already food, and the map still pictures everything. |
| Snake.FoodVisible | mejs/Snake.js:180 | While food is counted, the map shows a food tile. |
| Snake.MoveKeepsShape | mejs/Snake.js:27-69 | A move keeps the head on the map, the snake's tiles on the map, and `length` equal to the size of the list. |
| Snake.WallEndsGame | mejs/Snake.js:32-47 | A move into the wall lands on the old head, now body, and ends the game. The list, length and growth are unchanged. |
| Snake.MoveEndsGame | mejs/Snake.js:46-47 | A move ends the game exactly when the new head is on the snake. |
| Snake.MoveKeepsConsistent | mejs/Snake.js:48-67 | A safe move keeps playing and keeps the map, the food count and the planned direction consistent. |
| Snake.EatingGrows | mejs/Snake.js:50-60 | Eating takes one food, makes the snake one tile longer and leaves two more tiles to grow. The eaten tile holds no food afterwards. |
| Snake.TailFollows | mejs/Snake.js:58-67 | Without growing, the snake keeps its length. The old tail leaves the list and its tile becomes empty. |
| Snake.SteerKeeps | mejs/Snake.js:162-172 | Taking the keys keeps a playing state consistent. |
| Snake.MoveKeepsValid | mejs/Snake.js:27-69 | A move from a consistent playing state leaves a valid state, whether or not the game ends. |
| Snake.TickKeeps | mejs/Snake.js:160-177 | A frame keeps a playing state valid. |
| Snake.TickMovesEveryEighth | mejs/Snake.js:172-177 | A frame counts one tick. The head moves only on ticks divisible by eight. |
| Snake.FoodKeeps | mejs/Snake.js:180-189 | Food on an empty tile, while fewer than three are out, keeps the state valid. |
| Snake.StartedConsistent | mejs/Snake.js:112-158 | The corrected start of a game is consistent, and its map shows the first food. |
| Snake.HiddenFood | mejs/Snake.js:153-157 | With the source's `init`, food on the head's tile is overwritten by the first move. The map then shows no food while `foodCount` is still 1. |
| Snake.SnakeGame.constructor | mejs/Snake.js:101 | Page load starts a game: the state is valid and is the start of a game with the stored high score. |
| Snake.SnakeGame.ClearTiles | mejs/Snake.js:131-141 | The nested loops leave the blank map. |
| Snake.SnakeGame.ResetSnake | mejs/Snake.js:71-78 | The snake is back at the middle with length 1, 3 to grow and facing left. The counters are 0, the list holds the head, and nothing is queued. |
| Snake.SnakeGame.StartGame | mejs/Snake.js:112-158 | After `init` with the food on a given tile, the state is the start of a game, with or without the head's tile marked. |
| Snake.SnakeGame.Init | mejs/Snake.js:112-158 | The corrected `init` leaves a valid start of a game with the first food off the head's tile. |
| Snake.SnakeGame.InitAsWritten | mejs/Snake.js:112-158 | The source's `init`: the start of a game whose head's tile is not marked. |
| Snake.SnakeGame.GameOver | mejs/Snake.js:226-229 | The game ends, and the store is updated as `recordScore` does. The best score is returned. |
| Snake.SnakeGame.StepHead | mejs/Snake.js:29-44 | The plan becomes the direction, the old head's tile becomes body and is queued, and the head steps. |
| Snake.SnakeGame.Eat | mejs/Snake.js:50-53 | Food on the head's tile is eaten: one food fewer and three more to grow. |
| Snake.SnakeGame.Extend | mejs/Snake.js:55-67 | The head joins the list. The snake grows while it has growing to do; otherwise the tail tile is cleared and leaves the list. Both tiles are queued. |
| Snake.SnakeGame.Settle | mejs/Snake.js:49-67 | The second half of a safe move, as `Settled` describes it. |
| Snake.SnakeGame.Move | mejs/Snake.js:27-69 | `snake.move` as `StepMove` describes it: a collision ends the game, and a safe move settles the snake. |
| Snake.SnakeGame.PlaceFood | mejs/Snake.js:181-188 | Places food on a tile that was empty, and places none exactly when no tile is empty. |
| Snake.SnakeGame.Tick | mejs/Snake.js:160-177 | A playing frame takes the keys, counts the tick and moves on every eighth, keeping the state valid. |
| Snake.SnakeGame.FeedIfDue | mejs/Snake.js:179-189 | Food is added on an empty tile when none is out, or on every thousandth tick while fewer than three are out. Otherwise nothing changes. |
| Snake.SnakeGame.Update | mejs/Snake.js:160-195 | One frame: while playing, a tick and then food if due; after a game over, Space starts a new game. The state stays valid. |
| Traffic.Linked | mejs/Traffic.js:47-50 | Connecting adds `to` to the roads of `from`, and `from` to those of `to` when two-way. No other intersection's roads change. |
| Traffic.LinkedKeepsSymmetric | mejs/Traffic.js:47-50 | A two-way connection keeps every road two-way. |
| Traffic.LinkedIdempotent | mejs/Traffic.js:29-47 | Connecting the same pair again changes nothing, because roads form a set. |
| Traffic.LinkedBothWays | mejs/Traffic.js:48-49 | A two-way road is the road there plus the road back. |
| Traffic.Intersection.constructor | mejs/Traffic.js:19-30 | The new intersection has no roads and is registered under its id. Nothing else changes. |
| Traffic.Intersection.Connect | mejs/Traffic.js:37-51 | The road graph afterwards is `Linked` of the graph before, for an id or an intersection alike. A self-connection logs one warning per road added. A two-way road to an unregistered id adds the first road and then fails. |
| Traffic.Intersection.RandomConnection | mejs/Traffic.js:56-61 | Returns one of the roads. Returns undefined exactly when there are none. |
| Traffic.SteppedProgressInRange | mejs/Traffic.js:105-113 | With a non-negative speed, a car's progress stays in [0, 1) from frame to frame. |
| Traffic.SteppedFollowsRoads | mejs/Traffic.js:108-112 | A car that finishes its road sets off from its destination. The frame fails exactly when that destination is not registered, and otherwise the new destination is one of its roads. |
| Traffic.LeastExists | mejs/Traffic.js:156 | Every non-empty set of ids has a least member: the next car `for...in` visits. |
| Traffic.Car.constructor | mejs/Traffic.js:89-99 | A new car starts at progress 0 with the default speed between its two intersections, and is registered under its id. |
| Traffic.Car.Update | mejs/Traffic.js:105-113 | The car's frame is `CarStepped`: progress grows by the speed, and a finished road sets off from the destination along one of its roads. The speed is unchanged. |
| Traffic.Network.constructor | mejs/Traffic.js:13-16 | Empty registries and both counters at 0. |
| Traffic.Network.NewIntersectionId | mejs/Traffic.js:78-81 | Returns the counter and increments it, so an id is never issued twice and is not yet registered. |
| Traffic.Network.NewCarId | mejs/Traffic.js:83-86 | Returns the counter and increments it, so an id is never issued twice and is not yet registered. |
| Traffic.Network.Update | mejs/Traffic.js:155-159 | Every car takes its frame in increasing id order. When one fails, the cars before it have stepped, it has failed, and the cars after it are unchanged. |
| FiniteAutomata.Letters | mejs/FA.js:35-37 | The alphabet characters of the pattern, in order: no more than the pattern holds, and all in the alphabet. |
| FiniteAutomata.BuiltGrows | mejs/FA.js:35-47 | Every alphabet character adds exactly one state, and other characters add none. The states before the old end state keep their transitions. |
| FiniteAutomata.FreshBuildIsChain | mejs/FA.js:38-45 | Built from a fresh automaton, state `i` has the one transition `(c_i, i+1)`, where `c_i` is the `i`-th alphabet character. The last state has none. |
| FiniteAutomata.State.constructor | mejs/FA.js:52-54 | A new state has no transitions. |
| FiniteAutomata.State.AddTransition | mejs/FA.js:62-64 | The transition is appended to the state's transitions. |
| FiniteAutomata.FiniteAutomaton.constructor | mejs/FA.js:2-15 | A fresh automaton has one state without transitions. `nElements` is 1, start and end are that state, and the final states are `[0]`. |
| FiniteAutomata.FiniteAutomaton.NumElements | mejs/FA.js:20-22 | The number of states, at least 1. |
| FiniteAutomata.FiniteAutomaton.GetStates | mejs/FA.js:25-27 | The states, `nElements` of them, from the start state to the end state. |
| FiniteAutomata.FiniteAutomaton.GetFinalStates | mejs/FA.js:30-32 | A single final state, the index of the last state. |
| FiniteAutomata.FiniteAutomaton.Read | mejs/FA.js:37-46 | An alphabet character appends a new end state, reached from the old end by a transition labelled with the character that targets the new state's index. Any other character changes nothing. The invariant is kept. |
| FiniteAutomata.FiniteAutomaton.BuildFromRegex | mejs/FA.js:34-48 | The invariant is kept, with one new state per alphabet character and the old states first. The transitions are those of `Built`. |

## Left out

- Floating point: operand values are terms, not numbers. `Math.sin`, `Math.pow`, division by zero, `NaN` and `parseFloat` are not interpreted. A NUMBER token carries `Literal` of its digits.
- `evaluateYValuesList`, `yValsList` and `evaluationTest` in `mejs/Postfix.js` are not modelled. They depend on float stepping and `Date` timing, or on undefined globals.
- `LAST_PARSED_EQUATION` and the text of the error messages are not modelled. Errors are constructors of `PostfixTokens.Error`. The `evaluate` wrapper only appends the parsed equation to the message, so its errors are passed on unchanged.
- `DoublyLinkedList` is not part of this model. Its uses as a list and as a stack are sequences. Calling `peek` on an empty stack at a right brace throws, so the model reads that case as "Mismatched parentheses".
- PostfixLexer.ToLower: only ASCII letters are lowered; JavaScript's `toLowerCase` also maps other Unicode letters.
- PostfixTokens.EvaluateByToken: the model keeps its "did not know how to evaluate" error. `evaluatePostfix` never reaches it, because `requiredOperands` throws first for every such token.
- All drawing, the canvas, `requestAnimationFrame`, the keyboard listeners and `console.log`. Each frame's keys are a set of key codes passed to `update`.
- The cookie functions `getCookie` and `setCookie` are not part of this model. The stored high score is an `Option<int>`, `None` when no cookie exists.
- Snake.SnakeGame.PlaceFood: the source's retry loop draws random tiles until one is empty and never ends when none is. The model picks an empty tile freely and places no food when there is none.
- Snake.SnakeGame.Init: the first food never lands on the head's tile, and the head's tile is marked. The source does neither; see the findings.
- The snake's map is a map from tiles to codes, not a JavaScript array of columns. Reads and writes are the same per tile.
- Random choices are nondeterministic (`:|`): the food tile and `getRandomConnection`. A proof about them holds for every choice.
- Traffic.Intersection.Connect: requires the intersection to be registered under its own id in the network. Intersection objects overwritten in the registry by a later one with the same id are not modelled.
- Traffic.Car.Update: a car whose destination is not registered throws a `TypeError` in the source. The model returns `ok` false, with the same fields the source leaves behind.
- The demo network built at page load (`mejs/Traffic.js:178-194`) is not modelled. `main`, `init`, `step` and the frame loop are not modelled either.
- Traffic.Network.Update visits the cars in increasing id order. This is the order `for...in` gives for the non-negative integer ids the counters issue, so the method requires every registered id to have come from the counters (`Issued`).
- Traffic.Car.Update: a car's progress and speed are `real` numbers, not IEEE doubles. At the default speed 0.01 this changes no frame: in doubles the 100th addition of 0.01 to 0 gives 1.0000000000000007, so the car finishes its road on frame 100, as it does with exact 0.01. Intersection positions and distances are used only in drawing, and they are not modelled.
- `FiniteAutomata.InAlphabet` is the character class `[a-zA-Z0-9-_]` that the `_alphabet` regular expression tests against.
- `State.getTransitions` in `mejs/FA.js:58-60` only reads the `transitions` field, which the model uses directly.

## Findings

| source | as written | input that shows it | evidently intended | confidence | as-written member | corrected member |
|---|---|---|---|---|---|---|
| mejs/Snake.js:153-157 | `init` never marks the head's tile. It puts the first food on a random tile, which may be the head's tile (27, 20). | The first food is drawn at (27, 20). The first move marks that tile as body. The map then shows no food while `foodCount` is 1, so no new food appears until tick 1000. | The first food lies on an empty tile and the head's tile shows the head, so the map always shows the food that `foodCount` counts. | not executed | Snake.SnakeGame.InitAsWritten, Snake.HiddenFood | Snake.SnakeGame.Init, Snake.StartedConsistent |
