TestResult.DisplayName,TestResult.Outcome,TestResult.Duration,TestResult.ResourceCount,RandomSeed
Events.FireMultiset (correctness),Passed,00:00:00.1746842,145980,0
