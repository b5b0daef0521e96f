# Leetcode-RS solutions, modelled in Dafny

This project models the solutions of the Leetcode-RS catalogue. It is a collection of
independent puzzle solutions written in Rust, and the model covers every one of them except
four parts: the floating-point search (`max_probability.rs`), the earlier graph-cycle version of the request count
(`max_requests.rs:3-85`), and the `shortest_path` search of the key-collecting maze
(`get_all_keys.rs:279-330`) with its entry point `shortest_path_all_keys` (`get_all_keys.rs:346-352`);
the section "Left out" gives the reasons. Each source file becomes one Dafny module:

| module | source file |
|---|---|
| `Fibonacci`, `Tribonacci`, `ClimbStairs` | `src/dynamic_programming/{fib,tribonacci,climb_stairs}.rs` |
| `SingleNumber` | `src/bit_manipulation/single_number.rs` |
| `LongestSubarray`, `LargestVariance` | `src/dynamic_programming/{longest_subarray,largest_variance}.rs` |
| `Cookies`, `CookieMasks`, `CookieBacktracking` | `src/dynamic_programming/distribute_cookies.rs`, `src/backtracking/distribute_cookies.rs` |
| `MaxRequests` | `src/backtracking/max_requests.rs` |
| `BuddyStrings`, `Regex` | `src/string/{buddy_strings,regex}.rs` |
| `ShortestSubarray`, `Marbles`, `Confusion`, `TotalCost` | `src/two_pointers/*.rs` |
| `MinDepth`, `DistanceK` | `src/tree/{min_depth,distance_k}.rs` |
| `LastDayToCross`, `SmallestPairs`, `GetAllKeys` | `src/search/heap/*.rs` |

`Common` holds the shared vocabulary: `Option`, sums, `Min`/`Max`, powers of two, `i32`
bounds, sortedness, an insertion sort and the three-way `Ordering`.

Each solution has two parts in the model. The first is a reference definition of what the
puzzle asks for, stated without the algorithm. Examples:

- the least largest total over all assignments of cookies;
- the best dry limit over all crossings of the grid;
- the pattern language of `.` and `*`.

The second is the code itself: a method with its loops, or a function when the code has no
state.

The contracts tie the code to the reference. The heaps of the best-first searches are
sequences, and a pop takes some greatest (or least) entry. The order among ties is left
open, because `BinaryHeap` does not fix it. The contracts therefore hold for every tie
order. Fixed-width arithmetic appears as preconditions that keep the source's values in
range. Where the result depends on a cast (`k as usize` of a negative `k`), the cast is
written out.

The source's tests are restated as lemmas or example methods, where the verifier can decide
them. One expectation disagrees with the code. `k_smallest_pairs` with `k = 4` emits four
pairs, because the loop stops only after the fourth pop, but its first test expects three.
The model follows the code: `SmallestPairs.FirstExampleOrder` proves which four index pairs
are emitted.

## Model

| member | source | states |
|---|---|---|
| Fibonacci.Fib | src/dynamic_programming/fib.rs:2-15 | for `n >= 0` whose Fibonacci number fits in `i32`, the result is F(n) with F(0) = 0, F(1) = 1 and F(n) = F(n-1) + F(n-2) |
| Fibonacci.FMonotone | src/dynamic_programming/fib.rs:9-12 | the Fibonacci numbers never decrease, so a fitting F(n) bounds every intermediate value of the loop |
| Tribonacci.Tribonacci | src/dynamic_programming/tribonacci.rs:2-15 | for `n >= 0` whose tribonacci number fits in `i32`, the result is T(n) with T(0) = 0, T(1) = T(2) = 1 and each later term the sum of the three before |
| Tribonacci.TMonotone | src/dynamic_programming/tribonacci.rs:9-12 | the tribonacci numbers never decrease, so no intermediate sum overflows when T(n) fits |
| ClimbStairs.ClimbStairs | src/dynamic_programming/climb_stairs.rs:4-15 | a negative `n` gives 1; otherwise the result is F(n + 1) and equals the number of distinct sequences of 1- and 2-steps that climb `n` stairs |
| ClimbStairs.PlansAreSound | src/dynamic_programming/climb_stairs.rs:1-3 | every sequence the plan enumeration produces is made of 1- and 2-steps adding up to `n` |
| ClimbStairs.PlansAreComplete | src/dynamic_programming/climb_stairs.rs:1-3 | every sequence of 1- and 2-steps adding up to `n` is produced by the plan enumeration |
| ClimbStairs.PlanCountIsFibonacci | src/dynamic_programming/climb_stairs.rs:8-12 | the number of ways to climb `n` stairs is F(n + 1), the value the `taking`/`skipping` recurrence computes |
| ClimbStairs.MinCostClimbingStairs | src/dynamic_programming/climb_stairs.rs:22-32 | for at least two steps, the result is the cheaper of the best costs from step 0 and step 1; it is the cost of some legal route, and with non-negative costs no route is cheaper |
| ClimbStairs.BestRoute | src/dynamic_programming/climb_stairs.rs:26-29 | the cost the backwards recurrence assigns to step `i` is achieved by a route of 1- and 2-steps starting at `i` and leaving the staircase |
| ClimbStairs.BestIsLowerBound | src/dynamic_programming/climb_stairs.rs:26-31 | with non-negative costs no route from a step is cheaper than the recurrence's value for that step |
| SingleNumber.Absorb | src/bit_manipulation/single_number.rs:9-10 | after one round of the loop no bit is set in both `once` and `twice` |
| SingleNumber.Scan | src/bit_manipulation/single_number.rs:8-11 | after the loop, for every bit, (`once`, `twice`) encodes how many inputs have that bit set, modulo 3, as (0,0), (1,0) or (0,1) |
| SingleNumber.SingleNumber | src/bit_manipulation/single_number.rs:4-14 | an empty input gives 0; bit `i` of the result is set exactly when the number of inputs with bit `i` set is 1 modulo 3 |
| SingleNumber.CountBitPermutation | src/bit_manipulation/single_number.rs:8 | reordering the input does not change how many words have a given bit set |
| SingleNumber.SingleNumberFindsSingle | src/bit_manipulation/single_number.rs:1-3 | when the input is, in any order, one word `x` and three copies of each other word, the result is `x` |
| LongestSubarray.LongestSubarray | src/dynamic_programming/longest_subarray.rs:4-27 | the result is the longest run of ones left after deleting one element: no window with at most one non-one value is longer than the result plus one, some such window is exactly that long, the result is at most `n - 1`, and an all-ones input gives `n - 1` |
| LongestSubarray.WindowStart | src/dynamic_programming/longest_subarray.rs:13-17 | a window with at most one separator starts after every separator that is followed by a second one inside it, which is why `last` may forget the runs before the previous separator |
| BuddyStrings.BuddyStrings | src/string/buddy_strings.rs:3-29 | the result holds exactly when swapping two positions of `s` yields `goal` |
| BuddyStrings.EqualBuddies | src/string/buddy_strings.rs:27 | with no differing position, a swap works exactly when some byte repeats in `s` |
| BuddyStrings.OneDifference | src/string/buddy_strings.rs:27 | with exactly one differing position no swap works |
| BuddyStrings.TwoDifferences | src/string/buddy_strings.rs:22-25 | with exactly two differing positions, a swap works exactly when the two bytes cross-match |
| BuddyStrings.ThreeDifferences | src/string/buddy_strings.rs:27 | with three or more differing positions no swap works |
| ShortestSubarray.MinSubArrayLen | src/two_pointers/shortest_subarray.rs:20-54 | for a positive target and positive elements, the result is 0 exactly when no subarray reaches the target; otherwise it is the length of some subarray whose sum reaches the target, and no such subarray is shorter |
| ShortestSubarray.SliceMonotone | src/two_pointers/shortest_subarray.rs:18-19 | with positive elements, a subarray inside another never has the larger sum, which is what lets the window drop its first element and move on |
| Marbles.Splits | src/two_pointers/marbles.rs:20-22 | one entry per adjacent pair of weights, each the sum of that pair; no entries for fewer than two weights |
| Marbles.PutMarbles | src/two_pointers/marbles.rs:1-30 | `k == 1` gives 0; its meaning over all divisions into `k` bags is stated by `Marbles.PutMarblesSpread` (no two divisions differ by more) and `Marbles.PutMarblesAttained` (two divisions differ by exactly the result) |
| Marbles.PutMarblesNonNegative | src/two_pointers/marbles.rs:26-29 | the difference is never negative |
| Marbles.CutSumBounds | src/two_pointers/marbles.rs:9-18 | every division into `k` bags scores between the end weights plus the `k - 1` smallest split sums and the end weights plus the `k - 1` largest |
| Marbles.PutMarblesSpread | src/two_pointers/marbles.rs:18-29 | no two divisions into `k` bags differ in score by more than the result |
| Marbles.PutMarblesAttained | src/two_pointers/marbles.rs:18-29 | some two divisions into `k` bags differ in score by exactly the result |
| Confusion.Add | src/two_pointers/confusion.rs:28-37 | `add` keeps `total_len` equal to the sum of the queue and, from a queue within capacity, leaves the newest `min(len + 1, capacity)` run lengths, ending with the new one |
| Confusion.CloseQueue | src/two_pointers/confusion.rs:39-42 | after adding the run that ends at `e`, `consecutive()` is the length of the span the queue covers; that span ends at `e`, holds one separator fewer than the queue has runs, and the queue holds at most `k + 1` runs |
| Confusion.Close | src/two_pointers/confusion.rs:62-69 | after closing a run, the window's span has at most `k` separators, and every window ending in the closed run with at most `k` separators fits inside that span |
| Confusion.Step | src/two_pointers/confusion.rs:61-70 | one separator answer adds the closed run, raises `max` to `consecutive()` and moves `start` past the separator; `max` never decreases, stays the length of a window that at most `k` changes make uniform, and bounds every such window seen so far |
| Confusion.Answer | src/two_pointers/confusion.rs:57-73 | one loop round: a 'T' closes a run of the false window, an 'F' one of the true window, and the scan invariant holds for one more answer |
| Confusion.Finish | src/two_pointers/confusion.rs:75-77 | the final `add` covers the windows that end at the last answer, so the maximum with the final `consecutive()` bounds every window with at most `k` changes |
| Confusion.Conclude | src/two_pointers/confusion.rs:77-79 | the answer bounds every window that at most `k` changes make uniform, and the final runs of both windows are such windows |
| Confusion.MaxConsecutiveAnswers | src/two_pointers/confusion.rs:51-80 | for an answer key of 'T'/'F' and `k >= 0`, the result is the length of the longest window that at most `k` changes turn into one repeated answer: none is longer, one has exactly that length, and the result lies in `0 .. n` |
| MinDepth.LeafDepthsBounds | src/tree/min_depth.rs:24-40 | a non-empty tree has at least one leaf, and every leaf depth lies between the root's depth and that plus the height minus one |
| MinDepth.Expand | src/tree/min_depth.rs:29-37 | popping a node and pushing its children keeps the leaf depths still to be found: a node with any child contributes none itself, its children's leaves are pending instead, and the pending tree size drops by one |
| MinDepth.MinDepth | src/tree/min_depth.rs:22-44 | an empty tree gives 0; otherwise the result is at most every leaf depth, and it is the minimum leaf depth whenever the height fits in `i32` (one-child nodes are not leaves) |
| Cookies.SpreadSum | src/backtracking/distribute_cookies.rs:13-18 | handing out cookies adds exactly their sum to the children's totals, and keeps non-negative totals non-negative |
| Cookies.SpreadBound | src/dynamic_programming/distribute_cookies.rs:10-22 | with non-negative cookies, the largest child total of any assignment lies between 0 and the sum of all cookies |
| Cookies.TwoChildrenHalf | src/backtracking/distribute_cookies.rs:35-37 | with two children, the larger total is at least half of everything handed out, which is why no assignment of the test's cookies beats 31 |
| Cookies.CookiesExample | src/backtracking/distribute_cookies.rs:33-38 | for cookies [8,15,10,20,8] and two children the least achievable unfairness is 31 |
| Cookies.FairestUnique | src/dynamic_programming/distribute_cookies.rs:44-46 | the least unfairness over all assignments is a single number |
| CookieBacktracking.Distribute | src/backtracking/distribute_cookies.rs:1-21 | `distribute` hands `distribution` back as it came, and returns the least largest total over every way of giving the cookies from `current` on to the children |
| CookieBacktracking.GiveTo | src/backtracking/distribute_cookies.rs:14-16 | giving the current cookie to child `i`, recursing, and taking it back restores `distribution` and yields the best unfairness among assignments that start with child `i` |
| CookieBacktracking.Leaf | src/backtracking/distribute_cookies.rs:2-8 | with every cookie handed out, the unfairness is the largest child total |
| CookieBacktracking.Gather | src/backtracking/distribute_cookies.rs:13-20 | the minimum over the children of the best completions is the best over all completions |
| CookieBacktracking.DistributeCookies | src/backtracking/distribute_cookies.rs:23-27 | for `k >= 1` and non-negative cookies whose sum fits in `i32`, the result is the least largest child total over all `k^n` assignments |
| CookieMasks.ChildIdx | src/dynamic_programming/distribute_cookies.rs:6-8 | the child of cookie `n` is the 3-bit field at bits `3n .. 3n + 2` of the mask, hence below 8 |
| CookieMasks.ChildIndices | src/dynamic_programming/distribute_cookies.rs:24-27 | the per-cookie children of a mask form an assignment to at most 8 children |
| CookieMasks.ZeroMaskValid | src/dynamic_programming/distribute_cookies.rs:34-42 | mask 0 gives every cookie to child 0, so at least one mask is scored and the final `unwrap` succeeds |
| CookieMasks.Tally | src/dynamic_programming/distribute_cookies.rs:13-16 | the loop's per-child counts are the totals of the assignment the mask encodes |
| CookieMasks.UnfairnessSpread | src/dynamic_programming/distribute_cookies.rs:10-22 | `unfairness` is the largest child total of the assignment the mask encodes |
| CookieMasks.EncodeDecode | src/dynamic_programming/distribute_cookies.rs:34 | every assignment to at most 8 children is the decoding of some mask below `2^(3n)`, so the enumeration sees every assignment |
| CookieMasks.Consider | src/dynamic_programming/distribute_cookies.rs:35-44 | scoring one more mask keeps the running minimum equal to the least unfairness of the valid masks seen so far |
| CookieMasks.DistributeCookies | src/dynamic_programming/distribute_cookies.rs:30-47 | for `k >= 1`, at most 10 cookies and a sum that fits, the result is the least largest total over assignments to `min(k, 8)` children, hence the answer for `k <= 8` |
| MaxRequests.AcceptedRequests | src/backtracking/max_requests.rs:91-107 | the count is present exactly when granting the requests whose bit is set leaves every building's net change at zero, and it is then the number of granted requests |
| MaxRequests.HighBitsIgnored | src/backtracking/max_requests.rs:95-96 | two masks that agree on the bits of the listed requests give the same answer |
| MaxRequests.SelfLoopNeutral | src/backtracking/max_requests.rs:97-98 | granting or refusing a request from a building to itself changes no building's net change |
| MaxRequests.MaskZero | src/backtracking/max_requests.rs:109-114 | the empty mask is always accepted with count 0, so the `unwrap` of the maximum never fails |
| MaxRequests.Expressible | src/backtracking/max_requests.rs:89 | every choice among the first 16 requests is the selection of some mask below 2^16 |
| MaxRequests.Consider | src/backtracking/max_requests.rs:111-113 | after looking at one more mask the running maximum is attained by an earlier accepted mask and bounds every accepted mask seen so far |
| MaxRequests.MaximumRequests | src/backtracking/max_requests.rs:109-114 | the result lies in `0..=|requests|`, is attained by some balanced choice of requests among the first 16, and no such balanced choice grants more |
| MaxRequests.Conclude | src/backtracking/max_requests.rs:109-114 | the maximum over all masks below 2^16 is the maximum over all balanced choices of the first 16 requests |
| MaxRequests.DropBound | src/backtracking/max_requests.rs:97-98 | dropping requests from a choice moves a building's net change by at most the number dropped |
| MaxRequests.SourceDrained | src/backtracking/max_requests.rs:104-106 | a balanced choice that moves nobody into a building moves nobody out of it |
| MaxRequests.MostUnique | src/backtracking/max_requests.rs:109-114 | the maximum is unique |
| MaxRequests.Test1Most | src/backtracking/max_requests.rs:121-124 | the first example's maximum is 5 |
| MaxRequests.Test2Most | src/backtracking/max_requests.rs:128-131 | the second example's maximum is 3 |
| MaxRequests.Test3Most | src/backtracking/max_requests.rs:135-138 | the third example's maximum is 4 |
| MaxRequests.Test4Most | src/backtracking/max_requests.rs:142-145 | the fourth example's maximum is 4 |
| MaxRequests.Test5Most | src/backtracking/max_requests.rs:149-152 | the fifth example's maximum is 5 |
| MaxRequests.Test6Most | src/backtracking/max_requests.rs:156-159 | the sixth example's maximum is 10 |
| TotalCost.Choice | src/two_pointers/total_cost.rs:56-67 | the hired worker is eligible (among the first or the last `candidates` still waiting), no eligible worker is cheaper, and every eligible worker before it is strictly dearer |
| TotalCost.ChoiceUnique | src/two_pointers/total_cost.rs:56-67 | the cheapest eligible worker with the smallest index is the only one a session may hire |
| TotalCost.Peek | src/two_pointers/total_cost.rs:57-58 | a non-empty heap shows one of its values, no larger than any other; an empty heap shows `i32::MAX` |
| TotalCost.Pop | src/two_pointers/total_cost.rs:60-72 | popping removes one copy of the peeked value and nothing else |
| TotalCost.FrontPick | src/two_pointers/total_cost.rs:59-67 | when the rules hire from the front group, the front heap's least value is no higher than the back heap's and equals the hired cost |
| TotalCost.BackPick | src/two_pointers/total_cost.rs:59-67 | when the rules hire from the back group, the back heap's least value is strictly lower than the front heap's, so ties go to the front |
| TotalCost.Session | src/two_pointers/total_cost.rs:56-81 | one pass of the loop hires the worker the rules choose, adds its cost, and refills the group it came from with the nearest waiting worker |
| TotalCost.Round | src/two_pointers/total_cost.rs:56-81 | the total already paid plus the cost of the sessions still to run is unchanged by a pass of the loop |
| TotalCost.CheapestFirst | src/two_pointers/total_cost.rs:19-27 | when every waiting worker is a candidate, a session hires the cheapest one |
| TotalCost.HireSorted | src/two_pointers/total_cost.rs:19-27 | when every worker is a candidate, `k` sessions cost the sum of the `k` smallest costs, which justifies the sorting shortcut |
| TotalCost.Initial | src/two_pointers/total_cost.rs:39-53 | the first and last `candidates` workers fill the two heaps and the rest wait in the middle, in index order |
| TotalCost.Sessions | src/two_pointers/total_cost.rs:54-83 | the heap phase pays exactly what `k` sessions under the rules cost |
| TotalCost.TotalCost | src/two_pointers/total_cost.rs:14-84 | the result is the cost of `k` sessions under the rules: each hires the cheapest worker among the first and last `candidates` still waiting, the smallest index on ties |
| TotalCost.ExampleFirstSession | src/two_pointers/total_cost.rs:91-95 | in the first example the first session hires the 2 at index 3 rather than the 2 at index 5 |
| TotalCost.ExampleSecondSession | src/two_pointers/total_cost.rs:91-95 | the second session then hires the other 2 |
| TotalCost.ExampleThirdSession | src/two_pointers/total_cost.rs:91-95 | the third session hires the 7, for a total of 11 |
| SmallestPairs.ToVec | src/search/heap/smallest_pairs.rs:22-24 | the emitted vector holds the value from the first array, then the one from the second |
| SmallestPairs.Least | src/search/heap/smallest_pairs.rs:27-37 | the popped entry is one of least sum, the only thing the `Pair` ordering compares |
| SmallestPairs.Dominated | src/search/heap/smallest_pairs.rs:56-69 | every grid position not yet emitted has a heap entry at or above and at or left of it |
| SmallestPairs.Visit | src/search/heap/smallest_pairs.rs:52-71 | one pass pops an in-grid position not emitted before, records its unrecorded successors on the heap, emits its two values, and with sorted inputs keeps the emitted sums no larger than anything left |
| SmallestPairs.Room | src/search/heap/smallest_pairs.rs:52 | while the heap is non-empty fewer positions have been emitted than the grid holds, so the loop ends |
| SmallestPairs.Exhausted | src/search/heap/smallest_pairs.rs:52 | when the heap runs dry every grid position has been emitted exactly once |
| SmallestPairs.Cheapest | src/search/heap/smallest_pairs.rs:52-76 | with sorted inputs every emitted position has a sum no larger than any position not emitted, and the emitted sums do not decrease |
| SmallestPairs.KSmallestPairs | src/search/heap/smallest_pairs.rs:44-79 | the result holds `k` pairs, or the whole grid when `k` is 0 (the loop never sees `current == 0`), negative (`k as usize` wraps) or larger than the grid; they come from distinct index pairs starting at `(0, 0)`; with sorted inputs they are the smallest sums in non-decreasing order |
| SmallestPairs.FirstExampleOrder | src/search/heap/smallest_pairs.rs:86-91 | with `k = 4` on `[1, 7, 11]` and `[2, 4, 6]` the index pairs emitted are `(0, 0), (0, 1), (0, 2), (1, 0)` |
| SmallestPairs.FourthExampleOrder | src/search/heap/smallest_pairs.rs:119-126 | the fourth example emits `[1, 3], [2, 3], [1, 5]` |
| Regex.Tokenize | src/string/regex.rs:11-24 | a pattern yields at most as many tokens as it has characters |
| Regex.RenderTokenize | src/string/regex.rs:14-23 | tokenizing loses nothing: writing the tokens back gives the pattern again |
| Regex.RunLen | src/string/regex.rs:26-34 | `skip_until` with a character test consumes the longest prefix of characters the token accepts, stopping at the first one it rejects |
| Regex.DropLiterals | src/string/regex.rs:47-53 | the second `skip_until` removes exactly the run of `Literal(c)` tokens right after `Repeat(c)`, leaving the rest of the token list unchanged |
| Regex.RepeatMatches | src/string/regex.rs:45-56 | in the pattern language, `c*` followed by the rest matches exactly when skipping some run of characters `c` accepts lets the rest match |
| Regex.GreedySound | src/string/regex.rs:36-65 | when no `Repeat(c)` is directly followed by `Literal(c)`, every input the greedy pass accepts is in the pattern's language |
| Regex.LiteralsExact | src/string/regex.rs:42-43 | on a token list of literals only, the greedy pass accepts exactly the pattern's language |
| Regex.StarFreeExact | src/string/regex.rs:36-65 | on a pattern without `*`, `is_match` accepts exactly the inputs the pattern matches |
| Regex.GreedyExamples | src/string/regex.rs:72-93 | the first four examples give false, true, true, true, agreeing with the pattern language |
| Regex.OverMatch | src/string/regex.rs:45-56 | `is_match("a", "a*aa")` is true though the pattern needs at least two characters |
| Regex.UnderMatch | src/string/regex.rs:96-99 | `is_match("aaa", "ab*a*c*a")` is false though the pattern matches, so the fifth example's expectation is not met |
| Regex.BacktrackMatches | src/string/regex.rs:36-65 | retrying shorter runs for each `c*` decides exactly the pattern language on every input and pattern |
| Regex.IsMatchBacktracking | src/string/regex.rs:36-65 | the corrected matcher answers true exactly when the whole input is in the pattern's language |
| Regex.BacktrackingExamples | src/string/regex.rs:96-99 | the corrected matcher accepts the fifth example and rejects `"a"` against `"a*aa"` |
| LargestVariance.CountLetters | src/dynamic_programming/largest_variance.rs:9-13 | entry `x` of the tally is the number of occurrences of the `x`-th lowercase letter in `s` |
| LargestVariance.KadaneAdvance | src/dynamic_programming/largest_variance.rs:31-41 | counting one more character moves every substring difference ending here by the same amount as the running difference |
| LargestVariance.KadaneKeep | src/dynamic_programming/largest_variance.rs:47-49 | without a restart, every substring ending here with a second letter still ahead scores no more than the running difference |
| LargestVariance.KadaneRestart | src/dynamic_programming/largest_variance.rs:47-49 | restarting on a negative difference loses nothing: every substring starting earlier scores below zero from here |
| LargestVariance.CoveredStep | src/dynamic_programming/largest_variance.rs:41-45 | after recording, every substring ending by this character that holds the second letter scores at most `max`, or is still pending with no second letter in the current segment and one ahead |
| LargestVariance.Consume | src/dynamic_programming/largest_variance.rs:31-50 | one character keeps the scan's invariant: counts match the segment since the last restart, `remaining` counts the second letter still ahead, and `max` bounds and is attained by substring scores |
| LargestVariance.Scan | src/dynamic_programming/largest_variance.rs:27-50 | afterwards `max` is at least its old value, bounds the first-minus-second count over every substring holding the second letter, and is either unchanged or the score of such a substring |
| LargestVariance.Pair | src/dynamic_programming/largest_variance.rs:22-50 | equal letters and absent second letters are skipped; the pairs handled so far are bounded and `max` is attained |
| LargestVariance.Row | src/dynamic_programming/largest_variance.rs:17-52 | a first letter absent from `s` is skipped; every pair with this first letter is bounded afterwards |
| LargestVariance.PresentCounted | src/dynamic_programming/largest_variance.rs:18-25 | a letter that occurs in some substring has a non-zero tally, so skipping zero tallies skips no useful pair |
| LargestVariance.LargestUnique | src/dynamic_programming/largest_variance.rs:3-5 | the largest variance of a string is unique |
| LargestVariance.LargestVariance | src/dynamic_programming/largest_variance.rs:8-55 | the result is the largest variance: no substring has two present letters whose counts differ by more, and some substring has two that differ by exactly that much (0 for the empty string) |
| DistanceK.Find | src/tree/distance_k.rs:47 | the node with a given id is found exactly when the id occurs in the tree, and it carries that id |
| DistanceK.PathShape | src/tree/distance_k.rs:49-57 | the traced path starts at the target, ends at the root, and each node is a child of the next |
| DistanceK.ChildFind | src/tree/distance_k.rs:60-68 | a child pushed by the search is a node of the tree whose path to the root is the parent's path with the child in front |
| DistanceK.Trace | src/tree/distance_k.rs:46-69 | one pass either pops the target, and then its ancestor chain is exactly the path to the root, or pushes the popped node's children with the chain one node longer, keeping the target reachable from some stack entry |
| DistanceK.TracePath | src/tree/distance_k.rs:42-72 | `trace_path` returns the path from the target to the root when the target is in the tree and `None` otherwise |
| DistanceK.LevelDepthAt | src/tree/distance_k.rs:110-122 | a search from a node reports each node exactly `d` edges below it once, and nothing else |
| DistanceK.Reach | src/tree/distance_k.rs:91-122 | the ancestor `k` steps up plus the levels searched below the target and below each off-path sibling contain every node at distance `k` from the target exactly once, and no other node |
| DistanceK.Window | src/tree/distance_k.rs:97-107 | one window pushes the other child of the parent, at distance `i + 2`, exactly when the parent has two children |
| DistanceK.WindowLevels | src/tree/distance_k.rs:97-107 | what a window pushes is exactly what one more step up the path adds to the downward searches |
| DistanceK.Siblings | src/tree/distance_k.rs:95-108 | the stack before the downward search covers exactly the target's level `k` and, for each of the first `k - 1` steps up, the off-path sibling's level at the remaining distance |
| DistanceK.Visit | src/tree/distance_k.rs:110-122 | one pass reports a node at distance `k` or pushes its children one step further, so the reported nodes plus what the stack still covers stay the same |
| DistanceK.Collect | src/tree/distance_k.rs:110-122 | emptying the stack reports exactly the nodes the initial stack covers |
| DistanceK.DistanceK | src/tree/distance_k.rs:77-129 | a missing root or target gives nothing; `k == 0` gives the target's value; a target outside the tree gives nothing; otherwise every node at distance `k` (after `k as usize`) from the target is reported exactly once and nothing else |
| LastDayToCross.TryNew | src/search/heap/last_day_to_cross.rs:9-15 | a cell is returned exactly when the row and column lie inside the grid, and it has those coordinates |
| LastDayToCross.Neighbours | src/search/heap/last_day_to_cross.rs:18-30 | the expansion lists, without repeats, exactly the in-grid cells one step away |
| LastDayToCross.CmpRank | src/search/heap/last_day_to_cross.rs:57-70 | the state order ranks by limit first and row second, like comparing one combined number |
| LastDayToCross.CmpFlip | src/search/heap/last_day_to_cross.rs:57-70 | swapping the two states swaps `Less` and `Greater` and keeps `Equal` |
| LastDayToCross.CmpTrans | src/search/heap/last_day_to_cross.rs:57-70 | the order is transitive, as a `BinaryHeap` needs |
| LastDayToCross.Top | src/search/heap/last_day_to_cross.rs:108 | the popped state is one no other state ranks above |
| LastDayToCross.Remove | src/search/heap/last_day_to_cross.rs:108 | popping takes out that one state and keeps the others |
| LastDayToCross.Fill | src/search/heap/last_day_to_cross.rs:84-90 | each cell ends up holding the last day index whose 1-based entry names it, and 0 when none does |
| LastDayToCross.FloodStep | src/search/heap/last_day_to_cross.rs:88-90 | writing entry `i` changes exactly the cell it names |
| LastDayToCross.Driest | src/search/heap/last_day_to_cross.rs:125-131 | the dry limit of a walk is the day index of one of its cells and no larger than any of them |
| LastDayToCross.DriestStep | src/search/heap/last_day_to_cross.rs:131 | extending a walk from the top row by an adjacent cell gives a walk whose limit is the smaller of the walk's and the cell's |
| LastDayToCross.WidestUnique | src/search/heap/last_day_to_cross.rs:72-78 | the latest day to cross is unique |
| LastDayToCross.Relax | src/search/heap/last_day_to_cross.rs:116-135 | every neighbour not explored before becomes explored and gets a state on the heap with the smaller of the popped limit and its own day; the old heap entries stay in place; since a pushed cell was not explored before and is explored after, no cell is pushed twice |
| LastDayToCross.Next | src/search/heap/last_day_to_cross.rs:108-135 | a round keeps every heap state inside the grid, only explores grid cells, and either explores a new cell or shrinks the heap, so the search ends |
| LastDayToCross.Init | src/search/heap/last_day_to_cross.rs:93-105 | the search starts with one state per top-row cell, holding that cell's own day, and exactly the top row explored |
| LastDayToCross.InitCovered | src/search/heap/last_day_to_cross.rs:93-105 | at the start every explored cell waits on the heap |
| LastDayToCross.InitSound | src/search/heap/last_day_to_cross.rs:100-105 | each starting state is backed by its one-cell walk |
| LastDayToCross.InitAbove | src/search/heap/last_day_to_cross.rs:100-105 | a crossing's top cell starts on the heap with a limit at least the crossing's dry limit |
| LastDayToCross.Open | src/search/heap/last_day_to_cross.rs:108-135 | as long as the search runs, some cell of any crossing waits on the heap |
| LastDayToCross.Column | src/search/heap/last_day_to_cross.rs:138-139 | the first column is always a crossing, so the heap never runs dry and the final `0` is never returned |
| LastDayToCross.StepSound | src/search/heap/last_day_to_cross.rs:116-135 | after a round every heap state's limit is the dry limit of some walk from the top row to its cell |
| LastDayToCross.StepAbove | src/search/heap/last_day_to_cross.rs:116-135 | popping a state whose limit is at least a crossing's dry limit keeps some cell of that crossing on the heap with a limit at least that large |
| LastDayToCross.RunSound | src/search/heap/last_day_to_cross.rs:108-113 | the limit returned is the dry limit of some crossing |
| LastDayToCross.RunOptimal | src/search/heap/last_day_to_cross.rs:108-113 | the limit returned is at least the dry limit of every crossing |
| LastDayToCross.LatestDayToCross | src/search/heap/last_day_to_cross.rs:79-140 | the result is the latest day to cross: the dry limit of some crossing from the top row to the last row, and no crossing does better |
| LastDayToCross.Test1 | src/search/heap/last_day_to_cross.rs:146-151 | the 2 by 2 example's answer is day 2 |
| GetAllKeys.CellOf | src/search/heap/get_all_keys.rs:98-120 | each accepted character becomes a cell that shows as that same character, so the parse loses nothing |
| GetAllKeys.Visit | src/search/heap/get_all_keys.rs:97-121 | one character becomes its cell; afterwards `start` is the last `@` seen and `keys[id]` the last position of key `id` seen, or `(0, 0)` when the list was padded past it |
| GetAllKeys.KeysHit | src/search/heap/get_all_keys.rs:105-115 | reading key `id` grows the key list to `id + 1` with default positions when it is short and records the key's position, leaving the other entries alone |
| GetAllKeys.ParseRow | src/search/heap/get_all_keys.rs:94-125 | a row of text becomes a row of cells that shows as the same text, with the key list and start updated for everything read so far |
| GetAllKeys.NewGrid | src/search/heap/get_all_keys.rs:89-135 | the grid has one row per line, each cell showing as its character; `start` is the last `@` and `keys[id]` the last position of key `id`, `(0, 0)` for a missing key below the highest |
| GetAllKeys.Manhattan | src/search/heap/get_all_keys.rs:172-174 | the distance of two in-range points fits in a byte |
| GetAllKeys.ManhattanMetric | src/search/heap/get_all_keys.rs:172-174 | the distance is symmetric, zero exactly between equal points, and obeys the triangle inequality |
| GetAllKeys.Add | src/search/heap/get_all_keys.rs:187-193 | a move yields nothing exactly when a coordinate would become negative, and otherwise the moved point |
| GetAllKeys.Expand | src/search/heap/get_all_keys.rs:177-181 | the expansion holds exactly the points at distance 1 with non-negative coordinates |
| GetAllKeys.TakeKey | src/search/heap/get_all_keys.rs:221-223 | after picking up key `id`, a key is held exactly when it was held before or is `id` |
| GetAllKeys.FullKeys | src/search/heap/get_all_keys.rs:307 | the mask equals `(1 << n) - 1` exactly when it holds the keys `0 .. n - 1` and no other |
| GetAllKeys.FinishedMeaning | src/search/heap/get_all_keys.rs:305-309 | the search stops exactly when the keys held, with the one just picked up, are all the grid's keys and no other |
| GetAllKeys.KeyCount | src/search/heap/get_all_keys.rs:247-252 | the count is the number of keys 0 to 5 the mask holds |
| GetAllKeys.TakeCount | src/search/heap/get_all_keys.rs:247-252 | picking up a key not held before raises the count by one |
| GetAllKeys.NewState | src/search/heap/get_all_keys.rs:208-218 | a new state's cost is its steps plus what the estimate node still expects after this leg plus the distance left to the leg's destination, and it fits in a byte |
| GetAllKeys.Successors | src/search/heap/get_all_keys.rs:230-243 | every state kept is one step on, onto a cell the walk may enter, and every enterable neighbour gets a state |
| GetAllKeys.StateExpand | src/search/heap/get_all_keys.rs:226-244 | at most four successors, each one step further with the same leg and keys, onto an in-grid cell that is no wall, not excluded and not a lock whose key is missing; every such neighbour appears |
| GetAllKeys.Arrive | src/search/heap/get_all_keys.rs:298-314 | on reaching the leg's key the search ends with the step count exactly when all keys are then held; otherwise one new leg starts from here for each next key of the estimate node, with the key added |
| GetAllKeys.CmpMeaning | src/search/heap/get_all_keys.rs:263-276 | a state ranks higher when its cost is lower, or on equal cost when it holds more keys |
| GetAllKeys.LeastStep | src/search/heap/get_all_keys.rs:57-68 | one more key considered lowers the running minimum to the route through that key when it is cheaper |
| GetAllKeys.FitsChild | src/search/heap/get_all_keys.rs:58-63 | the subtree of an unexplored key stays within the byte bounds and has one key fewer to explore |
| GetAllKeys.DescribesAdd | src/search/heap/get_all_keys.rs:57-67 | inserting the node of key `i`, or nothing when it is explored, extends a tree that describes the keys before `i` to one that describes the keys up to `i` |
| GetAllKeys.Subtree | src/search/heap/get_all_keys.rs:58-65 | marking a key explored, building its subtree and unmarking it leaves the flags as they were and yields the node describing every order that continues through that key |
| GetAllKeys.TreeRecurse | src/search/heap/get_all_keys.rs:52-75 | the cost is the length of the cheapest order that visits every unexplored key from the current one (0 when none is left), and the tree holds one node per unexplored key describing all continuations; the flags are restored |
| GetAllKeys.Tree | src/search/heap/get_all_keys.rs:34-49 | the tree holds one node per key, with the distance from the start and the cheapest total through that key first, and below it the same for the remaining keys |
| GetAllKeys.TourMinimal | src/search/heap/get_all_keys.rs:52-75 | no order of the keys left is shorter than the estimate |
| GetAllKeys.TourAttained | src/search/heap/get_all_keys.rs:52-75 | some order of the keys left is exactly as long as the estimate |

## Left out

- `src/search/heap/max_probability.rs`: the whole file. It multiplies `f64` probabilities, orders its heap by floats, and compares answers within a tolerance.
- `src/backtracking/max_requests.rs:3-85`: an earlier graph-cycle search, which its author marks as failing on some inputs. Only the bit-mask enumeration after line 87 is modelled.
- `src/search/heap/get_all_keys.rs:279-330`, the `shortest_path` loop: not modelled as a whole. Its author marks it as unfinished, it returns `-1` on inputs it cannot solve, and it walks a `HashMap` in an unspecified order. The pieces it is built from are modelled:
  - the start states;
  - the expansion of a state (`GetAllKeys.StateExpand`);
  - what happens on reaching a key (`GetAllKeys.Arrive`);
  - the heap order (`GetAllKeys.CmpMeaning`).
- `src/search/heap/get_all_keys.rs:346-352`, `shortest_path_all_keys`: its examples are not restated, and nothing is claimed about the optimality of the step count, for the same reason.
- GetAllKeys.NewGrid: the `estimates` field is not built. `GetAllKeys.Tree` models its construction separately.
- GetAllKeys.NewGrid: the `as u8` casts of the row and column indices are not modelled. Grids are taken to have fewer than 128 rows and columns (`GetAllKeys.Board`), so the `i8` arithmetic of `Point + (i8, i8)` cannot wrap.
- GetAllKeys.Tree: requires that the `u8` sums of the estimate tree do not overflow and stay below the `u8::MAX` sentinel (`GetAllKeys.Fits`). It also requires distinct key positions, which every grid whose key letters are `a .. ` without gaps provides. The source wraps on overflow, and a key position repeated through the `(0, 0)` padding would overwrite a map entry.
- GetAllKeys.Tree: measures the distance as `manhattan(start, key)`, where line 41 writes `key.manhattan(start)`. The two are equal by `GetAllKeys.ManhattanMetric`.
- GetAllKeys.StateExpand: requires the state's cost plus 2 to fit in a `u8`. `GetAllKeys.Arrive` likewise requires the onward costs to fit (`GetAllKeys.Onward`). The source's `u8` additions would wrap.
- GetAllKeys.Cmp: only the `Ord` implementation is modelled. The `PartialEq` of lines 255-259 compares other fields, so `==` and `cmp() == Equal` can disagree. Nothing in the source relies on `==`.
- LastDayToCross.LatestDayToCross: requires the grid sides to fit in `i16` and at most 65536 days, so that the `u16` casts of lines 80-81 and 92 are exact.
- LastDayToCross.LatestDayToCross: requires `row >= 1` and `col >= 1`. With `row = 0` the source panics indexing `grid[0]` when it seeds the frontier (lines 92-105); with `col = 0` the frontier starts empty, the loop never runs and the fallback 0 of line 139 comes back. Neither is modelled.
- LastDayToCross.LatestDayToCross: a cell that no entry of `cells` names keeps day 0, as in the source. A repeated entry keeps its last day.
- LastDayToCross.Top: among states ranked equal, the first one in the sequence is popped. `BinaryHeap` may pop any of them, and the answer does not depend on which (`LastDayToCross.RunSound`, `LastDayToCross.RunOptimal`).
- MaxRequests.MaximumRequests: the overflow of `1 << i` for `i >= 64` in `accepted_requests` is not modelled. The model reads bit `i` of a mask below `2^16` as clear for every `i >= 16`.
- TotalCost.TotalCost: the `println!` calls of lines 62 and 72 are left out. The second and third tests are not restated, because their 38- and 35-element inputs make the proof too costly for the verifier.
- TotalCost.TotalCost: requires fewer than `i32::MAX` workers and costs below `i32::MAX`, so that `n + 1` and the empty-heap sentinel behave as intended. The `i64` total is unbounded.
- TotalCost.TotalCost: requires `0 <= k <= n` and `candidates >= 1`. Outside that domain the source does not hire workers: a negative `k` sums every cost in the sorting branch (`take(k as usize)`, line 24) and returns 0 in the heap branch (`while k > 0`, line 56); a `k` above `n` adds the `i32::MAX` sentinel once per session after both heaps are empty (lines 57-58, 70-72); and `candidates <= 0` starts the heap branch with empty or ill-sized heaps (lines 29-53). None of these is modelled.
- SmallestPairs.KSmallestPairs: requires both arrays to be non-empty, as `nums1[0]` and `nums2[0]` demand, and every pair sum to fit in `i32`. The explored set is a set of index pairs, and the heap is a sequence popped at some least sum.
- DistanceK.DistanceK: node identity, which the source takes from `Rc` pointers, is a node id. The ids of a tree are distinct, and a target found in the tree is the subtree stored there. The parent chain of `trace_path` is a sequence, not linked `Rc` nodes.
- MinDepth.MinDepth: `Rc` sharing is not modelled, and every subtree is its own value. The depth counter is unbounded, so the leaf-depth result is promised only when the height fits in `i32`.
- Confusion.MaxConsecutiveAnswers: requires `k >= 0`. A negative `k` goes through `k as usize + 1` in the source and is not modelled. Characters other than `T` and `F` panic in the source and are excluded by the precondition.
- ShortestSubarray.MinSubArrayLen: the window sum is unbounded; the source's `i32` window sum could overflow on large inputs. Positive elements and a positive target are required, as the source's documentation demands.
- ClimbStairs.MinCostClimbingStairs: requires at least two costs, since the source panics indexing `cost[steps - 2]` and computing `steps - 2` for shorter input (lines 24, 26). The `i32` additions of line 27 are unbounded in the model, so a route cost that overflows `i32` is not modelled.
- Marbles.PutMarbles: requires `k != 0`, since `bags - 1` underflows in the source. The `i32` additions of adjacent weights are unbounded in the model.
- Fibonacci.Fib: requires the result to fit in `i32`, because the source overflows otherwise.
- Tribonacci.Tribonacci: requires the result to fit in `i32`, because the source overflows otherwise.
- ClimbStairs.ClimbStairs: requires the result to fit in `i32`, because the source overflows otherwise.
- CookieBacktracking.DistributeCookies: requires `k >= 1`. With `k = 0` the source's distribution is empty (line 24): for non-empty cookies the loop of line 13 never runs and `i32::MAX` comes back (line 11), and only for no cookies does the leaf take the maximum of an empty list and panic (lines 3-7); neither case is modelled. It also requires non-negative cookies whose sum fits in `i32`, so that no partial total can overflow; the source accepts any `i32` cookies, and with negative ones an intermediate total may overflow even when the sum fits.
- CookieMasks.DistributeCookies: requires `k >= 1` and at most 10 cookies, so that `1 << (3 * n)` (line 34) fits in a `u32`; with `k = 0` the source's `.min().unwrap()` of line 46 has nothing to pick from. It also requires non-negative cookies whose sum fits in `i32`, which bounds every child total; the source accepts negative `i32` cookies, whose partial totals are not modelled. It answers for `min(k, 8)` children, because a 3-bit field cannot name a ninth child.
- LargestVariance.LargestVariance: requires lowercase ASCII, since `ch - b'a'` indexes the tally. The `i32` counters are unbounded.

## Findings

| source | as written | input that shows it | evidently intended | confidence | as-written member | corrected member |
|---|---|---|---|---|---|---|
| src/string/regex.rs:45-56 | after `c*` consumes its run, the matcher drops every following `Literal(c)` token | `is_match("a", "a*aa")` returns true, though `a*aa` needs at least two characters | `c*` followed by `c` literals still needs one character per literal | high; not executed | Regex.OverMatch | Regex.IsMatchBacktracking |
| src/string/regex.rs:45-46 | `c*` always takes the longest run of `c` and never gives any back | `is_match("aaa", "ab*a*c*a")` returns false, which is the source's fifth test | a later literal can match a character that `c*` gave back | high; not executed | Regex.UnderMatch | Regex.IsMatchBacktracking |

The corrected matcher, `Regex.Backtrack`, lets `c*` try the longest run first and then each
shorter one. `Regex.BacktrackMatches` proves that it decides exactly the pattern language
(`Regex.Matches`) for every input and pattern. The greedy pass is still exact on patterns
without `*` (`Regex.StarFreeExact`). It is also sound whenever no `c*` is directly followed
by a literal `c` (`Regex.GreedySound`).
