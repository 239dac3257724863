TestResult.DisplayName,TestResult.Outcome,TestResult.Duration,TestResult.ResourceCount,RandomSeed
Events.FireMultiset (correctness),Passed,00:00:00.1994944,281597,2
